/** Compiled programs are well formed: what holds at every instruction boundary. */
module RegexWellFormed {
  import opened RegexCode
  import opened RegexAst

  /** The subexpressions of r and their offsets in its layout. */
  function Parts(r: Regex): seq<(Regex, nat)> {
    match r
    case Empty => []
    case Leaf(_) => []
    case Cat(x, y) => [(x, 0), (y, Len(x))]
    case Alt(x, y) => [(x, 3), (y, 6 + Len(x))]
    case Star(x) => [(x, 3)]
    case Plus(x) => [(x, 6)]
    case Opt(x) => [(x, 3)]
    case Group(g, x) => [(x, if g == 0 then 0 else 2)]
  }

  /** The positions of the instructions r adds around its subexpressions. */
  function Own(r: Regex, b: int): set<int> {
    match r
    case Empty => {}
    case Leaf(_) => {b}
    case Cat(_, _) => {}
    case Alt(x, _) => {b, b + 3 + Len(x)}
    case Star(x) => {b, b + 3 + Len(x)}
    case Plus(x) => {b, b + 3, b + 6 + Len(x)}
    case Opt(_) => {b}
    case Group(g, x) => if g == 0 then {} else {b, b + 2 + Len(x)}
  }

  /** The positions at which the instructions of r start when r is laid out at b. */
  ghost function Starts(r: Regex, b: int): set<int> {
    var ps := Parts(r);
    Own(r, b)
    + (if |ps| > 0 then Starts(ps[0].0, b + ps[0].1) else {})
    + (if |ps| > 1 then Starts(ps[1].0, b + ps[1].1) else {})
  }

  /** The boundaries of a layout: its starts and its end. */
  ghost function Bounds(r: Regex, b: int): set<int> {
    Starts(r, b) + {b + Len(r)}
  }

  /** The boundaries of the whole program: every instruction of r, and the final Cend. */
  ghost function Boundaries(r: Regex): set<int> {
    Bounds(r, 0)
  }

  /** The code holds e at b. */
  ghost predicate Holds(code: Code, e: Code, b: int) {
    0 <= b && b + |e| <= |code| && code[b..b + |e|] == e
  }

  /** The code holds the layout of r at b. */
  ghost predicate Placed(code: Code, r: Regex, b: int) {
    Holds(code, Emit(r), b)
  }

  lemma {:induction false} Fits(code: Code, r: Regex, b: int)
    requires Placed(code, r, b)
    ensures 0 <= b && b + Len(r) <= |code|
  {
  }

  lemma {:induction false} HoldsPart(code: Code, x: Code, y: Code, b: int)
    requires Holds(code, x + y, b)
    ensures Holds(code, x, b) && Holds(code, y, b + |x|)
  {
    assert (x + y)[..|x|] == x && (x + y)[|x|..] == y;
    assert code[b..b + |x|] == code[b..b + |x + y|][..|x|];
    assert code[b + |x|..b + |x| + |y|] == code[b..b + |x + y|][|x|..];
  }

  // ---- The well-formedness of a program -----------------------------------------------------

  /** Every way on from the instruction at p leads to a boundary; forward jumps go forward; a star
      jump goes back to the failure jump that leaves the loop just after it; a dummy failure jump
      stands right before a failure jump and skips it. */
  ghost predicate GoodAt(code: Code, bounds: set<int>, p: int) {
    match Decode(code, p)
    case End => true
    case Read => Next(code, p) in bounds
    case Test(_) => Next(code, p) in bounds
    case Mark => Next(code, p) in bounds
    case Jump(t) => p + 3 <= t && t in bounds && p + 3 in bounds
    case FailJump(t) => p + 3 <= t && t in bounds && p + 3 in bounds
    case StarJump(t) => p + 3 in bounds && t in bounds && t + 3 <= p && Decode(code, t) == FailJump(p + 3)
    case DummyJump(t) =>
      p + 3 in bounds && t in bounds && t == p + 6 && Decode(code, p + 3).FailJump?
    case UpdateJump(_) => false
    case Bad => false
  }

  predicate IsJump(i: Instr) {
    i.Jump? || i.StarJump? || i.FailJump? || i.DummyJump? || i.UpdateJump?
  }

  /** A jump at x enters the body of the loop closed by the star jump at q only from inside that
      body, or as the dummy failure jump of that very loop. */
  ghost predicate Respects(code: Code, q: int, x: int) {
    var star, other := Decode(code, q), Decode(code, x);
    star.StarJump? && IsJump(other) && star.target + 3 <= other.target <= q ==>
      || star.target + 3 <= x < q
      || (other.DummyJump? && x == star.target - 3 && other.target == star.target + 3)
  }

  /** Well-formedness of a program with respect to its set of instruction boundaries. */
  ghost predicate WellFormed(code: Code, bounds: set<int>) {
    && 0 in bounds && |code| > 0 && |code| - 1 in bounds
    && (forall p <- bounds :: 0 <= p < |code|)
    && (forall p <- bounds :: GoodAt(code, bounds, p))
    && (forall p <- bounds :: Decode(code, p).End? <==> p == |code| - 1)
    && (forall p <- bounds, x <- bounds :: p < x ==> Next(code, p) <= x)
    && (forall q <- bounds, x <- bounds :: Respects(code, q, x))
  }

  // ---- Compiled code is well formed -----------------------------------------------------------

  function JumpInstr(op: Byte, target: int): Instr {
    if op == CJUMP then Jump(target)
    else if op == CSTAR_JUMP then StarJump(target)
    else if op == CFAILURE_JUMP then FailJump(target)
    else if op == CUPDATE_FAILURE_JUMP then UpdateJump(target)
    else DummyJump(target)
  }

  lemma {:induction false} JumpAt(code: Code, p: int, op: Byte, disp: int)
    requires Holds(code, JumpCode(op, disp), p)
    requires CJUMP <= op <= CDUMMY_FAILURE_JUMP && -0x8000 <= disp < 0x8000
    ensures code[p] == op && Next(code, p) == p + 3
    ensures Decode(code, p) == JumpInstr(op, p + 3 + disp)
  {
    var e := code[p..p + 3];
    assert e[0] == code[p] && e[1] == code[p + 1] && e[2] == code[p + 2];
    DispRoundTrip(disp);
  }

  lemma {:induction false} HoldsThree(code: Code, x: Code, y: Code, z: Code, b: int)
    requires Holds(code, x + y + z, b)
    ensures Holds(code, x, b) && Holds(code, y, b + |x|) && Holds(code, z, b + |x| + |y|)
  {
    HoldsPart(code, x + y, z, b);
    HoldsPart(code, x, y, b);
  }

  lemma {:induction false} LoopAt(code: Code, e: Code, b: int)
    requires Holds(code, StarCode(e), b) && |code| < 0x8000
    ensures Holds(code, e, b + 3) && b + 6 + |e| <= |code|
    ensures Decode(code, b) == FailJump(b + 6 + |e|)
    ensures Decode(code, b + 3 + |e|) == StarJump(b)
  {
    hide Lo, Hi, Disp, Decode;
    HoldsThree(code, JumpCode(CFAILURE_JUMP, |e| + 3), e, JumpCode(CSTAR_JUMP, -(|e| + 6)), b);
    JumpAt(code, b, CFAILURE_JUMP, |e| + 3);
    JumpAt(code, b + 3 + |e|, CSTAR_JUMP, -(|e| + 6));
  }

  ghost predicate AtomAt(code: Code, a: Atom, b: int) {
    && 0 <= b < |code| && Next(code, b) == b + AtomLen(a)
    && (a.Assert? ==> Decode(code, b) == Test(a.op))
    && (!a.Assert? ==> Decode(code, b).Read? && forall c: Byte :: CharOk(code, b, c) <==> AtomReads(a, c))
  }

  /** What the layout of r holds at b: its own instructions decoded, its parts placed. */
  ghost predicate Unfolded(code: Code, r: Regex, b: int) {
    match r
    case Empty => true
    case Leaf(a) => AtomAt(code, a, b)
    case Cat(x, y) => Placed(code, x, b) && Placed(code, y, b + Len(x))
    case Alt(x, y) =>
      && Placed(code, x, b + 3) && Placed(code, y, b + 6 + Len(x))
      && Decode(code, b) == FailJump(b + 6 + Len(x)) && Decode(code, b + 3 + Len(x)) == Jump(b + Len(r))
    case Star(x) =>
      && Placed(code, x, b + 3)
      && Decode(code, b) == FailJump(b + Len(r)) && Decode(code, b + 3 + Len(x)) == StarJump(b)
    case Plus(x) =>
      && Placed(code, x, b + 6) && Placed(code, Star(x), b + 3) && Decode(code, b) == DummyJump(b + 6)
      && Decode(code, b + 3) == FailJump(b + Len(r)) && Decode(code, b + 6 + Len(x)) == StarJump(b + 3)
    case Opt(x) => Placed(code, x, b + 3) && Decode(code, b) == FailJump(b + Len(r))
    case Group(g, x) =>
      if g == 0 then Placed(code, x, b)
      else
        && Placed(code, x, b + 2) && 0 <= b && b + 3 + Len(x) < |code|
        && Decode(code, b) == Mark && Next(code, b) == b + 2
        && Decode(code, b + 2 + Len(x)) == Mark && Next(code, b + 2 + Len(x)) == b + Len(r)
  }

  lemma {:induction false} AltAt(code: Code, x: Code, y: Code, b: int)
    requires Holds(code, JumpCode(CFAILURE_JUMP, |x| + 3) + x + JumpCode(CJUMP, |y|) + y, b) && |code| < 0x8000
    ensures Holds(code, x, b + 3) && Holds(code, y, b + 6 + |x|)
    ensures Decode(code, b) == FailJump(b + 6 + |x|)
    ensures Decode(code, b + 3 + |x|) == Jump(b + 6 + |x| + |y|)
  {
    hide Lo, Hi, Disp, Decode;
    HoldsPart(code, JumpCode(CFAILURE_JUMP, |x| + 3) + x + JumpCode(CJUMP, |y|), y, b);
    HoldsThree(code, JumpCode(CFAILURE_JUMP, |x| + 3), x, JumpCode(CJUMP, |y|), b);
    JumpAt(code, b, CFAILURE_JUMP, |x| + 3);
    JumpAt(code, b + 3 + |x|, CJUMP, |y|);
  }

  lemma {:induction false} PlusAt(code: Code, e: Code, b: int)
    requires Holds(code, JumpCode(CDUMMY_FAILURE_JUMP, 3) + StarCode(e), b) && |code| < 0x8000
    ensures Holds(code, StarCode(e), b + 3) && Decode(code, b) == DummyJump(b + 6)
  {
    hide Lo, Hi, Disp, Decode, StarCode;
    HoldsPart(code, JumpCode(CDUMMY_FAILURE_JUMP, 3), StarCode(e), b);
    JumpAt(code, b, CDUMMY_FAILURE_JUMP, 3);
  }

  lemma {:induction false} OptAt(code: Code, e: Code, b: int)
    requires Holds(code, JumpCode(CFAILURE_JUMP, |e|) + e, b) && |code| < 0x8000
    ensures Holds(code, e, b + 3) && Decode(code, b) == FailJump(b + 3 + |e|)
  {
    hide Lo, Hi, Disp, Decode;
    HoldsPart(code, JumpCode(CFAILURE_JUMP, |e|), e, b);
    JumpAt(code, b, CFAILURE_JUMP, |e|);
  }

  lemma {:induction false} GroupAt(code: Code, e: Code, b: int, g: Byte)
    requires Holds(code, [CSTART_MEMORY, g] + e + [CEND_MEMORY, g], b)
    ensures Holds(code, e, b + 2) && 0 <= b && b + 4 + |e| <= |code|
    ensures Decode(code, b) == Mark && Next(code, b) == b + 2
    ensures Decode(code, b + 2 + |e|) == Mark && Next(code, b + 2 + |e|) == b + 4 + |e|
  {
    HoldsThree(code, [CSTART_MEMORY, g], e, [CEND_MEMORY, g], b);
    assert code[b..b + 2][0] == code[b];
    assert code[b + 2 + |e|..b + 4 + |e|][0] == code[b + 2 + |e|];
  }

  lemma {:induction false} UnfoldAlt(code: Code, r: Regex, b: int)
    requires Placed(code, r, b) && |code| < 0x8000 && r.Alt?
    ensures Unfolded(code, r, b)
  {
    hide Decode, JumpCode, Emit, Holds;
    EmitAlt(r.left, r.right);
    AltAt(code, Emit(r.left), Emit(r.right), b);
  }

  lemma {:induction false} EmitAlt(x: Regex, y: Regex)
    ensures Emit(Alt(x, y)) == JumpCode(CFAILURE_JUMP, |Emit(x)| + 3) + Emit(x) + JumpCode(CJUMP, |Emit(y)|) + Emit(y)
    ensures Len(Alt(x, y)) == 6 + Len(x) + Len(y)
  {
    hide JumpCode;
  }

  lemma {:induction false} UnfoldPlus(code: Code, r: Regex, b: int)
    requires Placed(code, r, b) && |code| < 0x8000 && r.Plus?
    ensures Unfolded(code, r, b)
  {
    hide Lo, Hi, Disp, Decode, JumpCode, StarCode, EmitAtom, AtomAt, Next, Holds;
    PlusAt(code, Emit(r.body), b);
    LoopAt(code, Emit(r.body), b + 3);
  }

  lemma {:induction false} UnfoldGroup(code: Code, r: Regex, b: int)
    requires Placed(code, r, b) && |code| < 0x8000 && r.Group?
    ensures Unfolded(code, r, b)
  {
    hide Lo, Hi, Disp, Decode, JumpCode, StarCode, EmitAtom, AtomAt, Next, Holds;
    if r.reg != 0 { GroupAt(code, Emit(r.body), b, r.reg); }
  }

  lemma {:induction false} Unfold(code: Code, r: Regex, b: int)
    requires Placed(code, r, b) && |code| < 0x8000 && Supported(r)
    ensures Unfolded(code, r, b)
  {
    hide Lo, Hi, Disp, Decode, JumpCode, StarCode, EmitAtom, AtomAt, Next, Holds;
    match r
    case Empty =>
    case Leaf(a) => UnfoldAtom(code, a, b);
    case Cat(x, y) => HoldsPart(code, Emit(x), Emit(y), b);
    case Alt(x, y) => UnfoldAlt(code, r, b);
    case Star(x) => LoopAt(code, Emit(x), b);
    case Plus(x) => UnfoldPlus(code, r, b);
    case Opt(x) => OptAt(code, Emit(x), b);
    case Group(g, x) => UnfoldGroup(code, r, b);
  }

  lemma {:induction false} UnfoldAtom(code: Code, a: Atom, b: int)
    requires Placed(code, Leaf(a), b) && !a.BackRef?
    ensures AtomAt(code, a, b)
  {
    var e := EmitAtom(a);
    assert forall i :: b <= i < b + |e| ==> code[i] == code[b..b + |e|][i - b];
    if a.Class? {
      forall c: Byte ensures CharOk(code, b, c) <==> c in a.members {
        SetByteBit(a.members, c);
        assert code[b + 1 + c / 8] == e[1 + c / 8] == Bitmap(a.members)[c / 8] == SetByte(a.members, c / 8);
      }
    }
  }

  lemma {:induction false} Width(code: Code, p: int)
    requires Decode(code, p) != Bad
    ensures 0 <= p < Next(code, p) <= |code|
    ensures IsJump(Decode(code, p)) ==> Next(code, p) == p + 3
  {
  }

  /** The start and the end of part k of r, when r is laid out at b. */
  function From(r: Regex, b: int, k: nat): int
    requires k < |Parts(r)|
  {
    b + Parts(r)[k].1
  }

  function To(r: Regex, b: int, k: nat): int
    requires k < |Parts(r)|
  {
    b + Parts(r)[k].1 + Len(Parts(r)[k].0)
  }

  /** A part of a layout is placed inside it. */
  lemma {:induction false} PartInside(code: Code, r: Regex, b: int, k: nat)
    requires Placed(code, r, b) && |code| < 0x8000 && Supported(r) && k < |Parts(r)|
    ensures Supported(Parts(r)[k].0) && Placed(code, Parts(r)[k].0, From(r, b, k))
    ensures b <= From(r, b, k) <= To(r, b, k) <= b + Len(r)
  {
    hide Decode, Emit, Next, Holds, AtomAt;
    Unfold(code, r, b);
  }

  /** An instruction r adds lies inside the layout and outside every part. */
  lemma {:induction false} OwnInside(code: Code, r: Regex, b: int, p: int)
    requires Placed(code, r, b) && |code| < 0x8000 && Supported(r) && p in Own(r, b)
    ensures b <= p < |code| && p < Next(code, p) <= b + Len(r) <= |code|
    ensures Decode(code, p) != Bad && Decode(code, p) != Instr.End
    ensures forall k :: 0 <= k < |Parts(r)| ==> Next(code, p) <= From(r, b, k) || To(r, b, k) <= p
  {
    hide Decode, Emit, Next, CharOk, AtomReads, Holds;
    Fits(code, r, b);
    Unfold(code, r, b);
    assert Decode(code, p) != Bad && Decode(code, p) != Instr.End;
    Width(code, p);
  }

  /** Boundaries lie inside the layout and the instruction at one ends inside it. */
  lemma {:induction false} StartsInside(code: Code, r: Regex, b: int, p: int)
    requires Placed(code, r, b) && |code| < 0x8000 && Supported(r) && p in Starts(r, b)
    ensures b <= p < |code| && p < Next(code, p) <= b + Len(r) <= |code|
    ensures Decode(code, p) != Bad && Decode(code, p) != Instr.End
  {
    hide Decode, Emit, Next, CharOk, AtomReads, Own, Holds, Starts;
    Fits(code, r, b);
    if p in Own(r, b) { OwnInside(code, r, b, p); }
    else {
      var k := PartOf(r, b, p);
      PartInside(code, r, b, k);
      StartsInside(code, Parts(r)[k].0, From(r, b, k), p);
    }
  }

  /** A layout begins at a boundary. */
  lemma {:induction false} FirstBound(r: Regex, b: int)
    ensures b in Bounds(r, b)
  {
    match r
    case Cat(x, y) => FirstBound(x, b); FirstBound(y, b + Len(x));
    case Group(g, x) => FirstBound(x, b);
    case _ =>
  }

  /** Boundaries of a part are boundaries of the whole. */
  lemma {:induction false} PartBounds(r: Regex, b: int, k: nat)
    requires k < |Parts(r)|
    ensures Bounds(Parts(r)[k].0, From(r, b, k)) <= Bounds(r, b)
  {
    hide Own;
    assert To(r, b, k) in Bounds(r, b) by { PartEnds(r, b, k); }
  }

  lemma {:induction false} PartEnds(r: Regex, b: int, k: nat)
    requires k < |Parts(r)|
    ensures To(r, b, k) in Bounds(r, b)
  {
    match r
    case Cat(x, y) => FirstBound(y, b + Len(x));
    case _ =>
  }

  lemma {:induction false} GoodGrows(code: Code, small: set<int>, large: set<int>, p: int)
    requires GoodAt(code, small, p) && small <= large
    ensures GoodAt(code, large, p)
  {
  }

  lemma {:induction false} OwnStarts(r: Regex, b: int)
    ensures Own(r, b) <= Bounds(r, b) && b + Len(r) in Bounds(r, b)
  {
  }

  lemma {:induction false} PartEdges(r: Regex, b: int, k: nat)
    requires k < |Parts(r)|
    ensures From(r, b, k) in Bounds(r, b) && To(r, b, k) in Bounds(r, b)
  {
    hide Starts, Own, Parts;
    FirstBound(Parts(r)[k].0, From(r, b, k));
    PartBounds(r, b, k);
  }

  lemma {:induction false} AltGood(code: Code, r: Regex, b: int, p: int)
    requires Placed(code, r, b) && |code| < 0x8000 && Supported(r) && p in Own(r, b) && r.Alt?
    ensures GoodAt(code, Bounds(r, b), p)
  {
    hide Decode, Emit, Next, Holds, Starts, Bounds, AtomAt, Placed;
    Unfold(code, r, b);
    OwnStarts(r, b);
    PartEdges(r, b, 0);
    PartEdges(r, b, 1);
  }

  lemma {:induction false} PlusGood(code: Code, r: Regex, b: int, p: int)
    requires Placed(code, r, b) && |code| < 0x8000 && Supported(r) && p in Own(r, b) && r.Plus?
    ensures GoodAt(code, Bounds(r, b), p)
  {
    hide Decode, Emit, Next, Holds, Starts, Bounds, AtomAt, Placed;
    Unfold(code, r, b);
    OwnStarts(r, b);
    PartEdges(r, b, 0);
  }

  lemma {:induction false} StarGood(code: Code, r: Regex, b: int, p: int)
    requires Placed(code, r, b) && |code| < 0x8000 && Supported(r) && p in Own(r, b) && r.Star?
    ensures GoodAt(code, Bounds(r, b), p)
  {
    hide Decode, Emit, Next, Holds, Starts, Bounds, AtomAt, Placed;
    Unfold(code, r, b);
    OwnStarts(r, b);
    PartEdges(r, b, 0);
  }

  lemma {:induction false} OptGood(code: Code, r: Regex, b: int, p: int)
    requires Placed(code, r, b) && |code| < 0x8000 && Supported(r) && p in Own(r, b) && r.Opt?
    ensures GoodAt(code, Bounds(r, b), p)
  {
    hide Decode, Emit, Next, Holds, Starts, Bounds, AtomAt, Placed;
    Unfold(code, r, b);
    OwnStarts(r, b);
    PartEdges(r, b, 0);
  }

  lemma {:induction false} GroupGood(code: Code, r: Regex, b: int, p: int)
    requires Placed(code, r, b) && |code| < 0x8000 && Supported(r) && p in Own(r, b) && r.Group?
    ensures GoodAt(code, Bounds(r, b), p)
  {
    hide Decode, Emit, Next, Holds, Starts, Bounds, AtomAt, Placed;
    Unfold(code, r, b);
    OwnStarts(r, b);
    PartEdges(r, b, 0);
  }

  lemma {:induction false} OwnGood(code: Code, r: Regex, b: int, p: int)
    requires Placed(code, r, b) && |code| < 0x8000 && Supported(r) && p in Own(r, b)
    ensures GoodAt(code, Bounds(r, b), p)
  {
    hide GoodAt, Unfolded, Bounds, Starts, Placed;
    match r
    case Leaf(a) =>
      LeafPlaced(code, a, b);
      LeafGood(code, a, b);
    case Alt(_, _) => AltGood(code, r, b, p);
    case Plus(_) => PlusGood(code, r, b, p);
    case Star(_) => StarGood(code, r, b, p);
    case Opt(_) => OptGood(code, r, b, p);
    case Group(_, _) => GroupGood(code, r, b, p);
  }

  lemma {:induction false} LeafPlaced(code: Code, a: Atom, b: int)
    requires Placed(code, Leaf(a), b) && |code| < 0x8000 && Supported(Leaf(a))
    ensures AtomAt(code, a, b)
  {
    hide Decode, Emit, Next, Holds, AtomAt;
    Unfold(code, Leaf(a), b);
  }

  lemma {:induction false} LeafGood(code: Code, a: Atom, b: int)
    requires AtomAt(code, a, b)
    ensures GoodAt(code, Bounds(Leaf(a), b), b)
  {
    hide Decode, Next, CharOk, AtomReads;
  }

  lemma {:induction false} AllGood(code: Code, r: Regex, b: int, p: int)
    requires Placed(code, r, b) && |code| < 0x8000 && Supported(r) && p in Starts(r, b)
    ensures GoodAt(code, Bounds(r, b), p)
  {
    hide Decode, Emit, Next, Holds, Own, GoodAt, Starts;
    if p in Own(r, b) { OwnGood(code, r, b, p); }
    else {
      var k := PartOf(r, b, p);
      PartInside(code, r, b, k);
      AllGood(code, Parts(r)[k].0, From(r, b, k), p);
      PartBounds(r, b, k);
      GoodGrows(code, Bounds(Parts(r)[k].0, From(r, b, k)), Bounds(r, b), p);
    }
  }

  /** Where a jump that r adds goes: to the loop it belongs to, or outside every part. */
  lemma {:induction false} OwnTargets(code: Code, r: Regex, b: int, p: int, k: nat)
    requires Placed(code, r, b) && |code| < 0x8000 && Supported(r) && p in Own(r, b) && k < |Parts(r)|
    requires IsJump(Decode(code, p))
    ensures var t := Decode(code, p).target; t <= From(r, b, k) || To(r, b, k) <= t
  {
    hide Decode, Emit, Next, Holds, AtomAt;
    Unfold(code, r, b);
  }

  /** The star jump that r adds closes a loop around part 0; the other jumps r adds stay out of it. */
  lemma {:induction false} OwnStar(code: Code, r: Regex, b: int, q: int, x: int)
    requires Placed(code, r, b) && |code| < 0x8000 && Supported(r) && q in Own(r, b) && Decode(code, q).StarJump?
    ensures r.Star? || r.Plus?
    ensures q == To(r, b, 0) && Decode(code, q).target + 3 == From(r, b, 0)
    ensures x in Own(r, b) ==> Respects(code, q, x)
  {
    hide Decode, Emit, Next, Holds;
    Unfold(code, r, b);
  }

  lemma {:induction false} NoOverlap(code: Code, r: Regex, b: int, p: int, x: int)
    requires Placed(code, r, b) && |code| < 0x8000 && Supported(r) && p in Starts(r, b) && x in Starts(r, b)
    requires p < x
    ensures Next(code, p) <= x
  {
    hide Decode, Emit, Next, Holds, Own, Starts;
    StartsInside(code, r, b, p);
    StartsInside(code, r, b, x);
    if p in Own(r, b) {
      OwnInside(code, r, b, p);
      if x in Own(r, b) { OwnApart(code, r, b, p, x); }
      else {
        var k := PartOf(r, b, x);
        PartInside(code, r, b, k);
        StartsInside(code, Parts(r)[k].0, From(r, b, k), x);
      }
    } else {
      var k := PartOf(r, b, p);
      PartInside(code, r, b, k);
      StartsInside(code, Parts(r)[k].0, From(r, b, k), p);
      if x in Own(r, b) { OwnInside(code, r, b, x); }
      else {
        var l := PartOf(r, b, x);
        PartInside(code, r, b, l);
        StartsInside(code, Parts(r)[l].0, From(r, b, l), x);
        if k == l { NoOverlap(code, Parts(r)[k].0, From(r, b, k), p, x); }
        else { PartsApart(r, b, k, l); }
      }
    }
  }

  lemma {:induction false} PartsApart(r: Regex, b: int, k: nat, l: nat)
    requires k < |Parts(r)| && l < |Parts(r)| && k != l
    ensures k < l ==> To(r, b, k) <= From(r, b, l)
    ensures l < k ==> To(r, b, l) <= From(r, b, k)
  {
  }

  lemma {:induction false} OwnApart(code: Code, r: Regex, b: int, p: int, x: int)
    requires Placed(code, r, b) && |code| < 0x8000 && Supported(r) && p in Own(r, b) && x in Own(r, b)
    requires p < x
    ensures Next(code, p) <= x
  {
    hide Decode, Emit, Holds, AtomAt;
    Unfold(code, r, b);
    Width(code, p);
  }

  lemma {:induction false} AllRespect(code: Code, r: Regex, b: int, q: int, x: int)
    requires Placed(code, r, b) && |code| < 0x8000 && Supported(r) && q in Starts(r, b) && x in Starts(r, b)
    ensures Respects(code, q, x)
    decreases r, 1
  {
    hide Decode, Emit, Next, Holds, Own, Starts;
    if Decode(code, q).StarJump? && IsJump(Decode(code, x)) {
      if q in Own(r, b) {
        OwnStar(code, r, b, q, x);
        if x !in Own(r, b) {
          var k := PartOf(r, b, x);
          PartInside(code, r, b, k);
          StartsInside(code, Parts(r)[k].0, From(r, b, k), x);
        }
      } else {
        var k := PartOf(r, b, q);
        InnerRespects(code, r, b, q, x, k);
      }
    }
  }

  lemma {:induction false} InnerRespects(code: Code, r: Regex, b: int, q: int, x: int, k: nat)
    requires Placed(code, r, b) && |code| < 0x8000 && Supported(r) && x in Starts(r, b)
    requires k < |Parts(r)| && q in Starts(Parts(r)[k].0, From(r, b, k))
    requires Decode(code, q).StarJump? && IsJump(Decode(code, x))
    ensures Respects(code, q, x)
    decreases r, 0
  {
    hide Decode, Emit, Next, Holds, Own, Starts;
    PartInside(code, r, b, k);
    StartsInside(code, Parts(r)[k].0, From(r, b, k), q);
    TargetInside(code, Parts(r)[k].0, From(r, b, k), q);
    if x in Own(r, b) { OwnTargets(code, r, b, x, k); }
    else {
      var l: nat := PartOf(r, b, x);
      PartInside(code, r, b, l);
      if k == l { AllRespect(code, Parts(r)[k].0, From(r, b, k), q, x); }
      else {
        PartsApart(r, b, k, l);
        TargetInside(code, Parts(r)[l].0, From(r, b, l), x);
      }
    }
  }

  lemma {:induction false} PartOf(r: Regex, b: int, x: int) returns (k: nat)
    requires x in Starts(r, b) && x !in Own(r, b)
    ensures k < |Parts(r)| && x in Starts(Parts(r)[k].0, From(r, b, k))
  {
    k :| k < |Parts(r)| && x in Starts(Parts(r)[k].0, From(r, b, k));
  }

  /** A jump inside a layout stays inside it, or goes to its end. */
  lemma {:induction false} TargetInside(code: Code, r: Regex, b: int, p: int)
    requires Placed(code, r, b) && |code| < 0x8000 && Supported(r) && p in Starts(r, b)
    requires IsJump(Decode(code, p))
    ensures b <= Decode(code, p).target <= b + Len(r)
  {
    hide Decode, Emit, Next, Holds, Own, Starts;
    AllGood(code, r, b, p);
    var t := Decode(code, p).target;
    assert t in Bounds(r, b);
    if t in Starts(r, b) { StartsInside(code, r, b, t); }
  }

  // ---- The compiled program -------------------------------------------------------------------

  lemma {:induction false} ProgramPlaced(r: Regex)
    ensures Placed(Program(r), r, 0) && |Program(r)| == Len(r) + 1
    ensures Decode(Program(r), Len(r)).End? && Next(Program(r), Len(r)) == Len(r) + 1
  {
    assert Program(r)[0..|Emit(r)|] == Emit(r);
  }

  /** Every program the compiler lays out is well formed, as long as displacements fit. */
  lemma {:induction false} ProgramWellFormed(r: Regex)
    requires Supported(r) && Small(r)
    ensures WellFormed(Program(r), Boundaries(r))
  {
    hide Decode, Emit, Next, Starts, Bounds, Boundaries, GoodAt, Respects, Program;
    var code, bounds := Program(r), Boundaries(r);
    ProgramFacts(r);
    forall p <- bounds
      ensures 0 <= p < |code| && GoodAt(code, bounds, p) && (Decode(code, p).End? <==> p == |code| - 1)
    {
      BoundFacts(r, p);
    }
    forall p <- bounds, x <- bounds ensures (p < x ==> Next(code, p) <= x) && Respects(code, p, x) {
      BoundPairFacts(r, p, x);
    }
  }

  lemma {:induction false} ProgramFacts(r: Regex)
    ensures 0 in Boundaries(r) && |Program(r)| > 0 && |Program(r)| - 1 in Boundaries(r)
  {
    ProgramPlaced(r);
    FirstBound(r, 0);
  }

  lemma {:induction false} BoundFacts(r: Regex, p: int)
    requires Supported(r) && Small(r) && p in Boundaries(r)
    ensures 0 <= p < |Program(r)| && GoodAt(Program(r), Boundaries(r), p)
    ensures Decode(Program(r), p).End? <==> p == |Program(r)| - 1
  {
    hide Decode, Emit, Next, Holds, Own, Starts;
    var code := Program(r);
    ProgramPlaced(r);
    if p in Starts(r, 0) {
      StartsInside(code, r, 0, p);
      AllGood(code, r, 0, p);
    }
  }

  lemma {:induction false} BoundPairFacts(r: Regex, p: int, x: int)
    requires Supported(r) && Small(r) && p in Boundaries(r) && x in Boundaries(r)
    ensures p < x ==> Next(Program(r), p) <= x
    ensures Respects(Program(r), p, x)
  {
    hide Decode, Emit, Next, Holds, Own, Starts;
    var code := Program(r);
    ProgramPlaced(r);
    if p in Starts(r, 0) {
      StartsInside(code, r, 0, p);
      if x in Starts(r, 0) {
        AllRespect(code, r, 0, p, x);
        if p < x { NoOverlap(code, r, 0, p, x); }
      }
    } else if x in Starts(r, 0) {
      StartsInside(code, r, 0, x);
    }
  }
}
