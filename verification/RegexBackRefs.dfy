/** Programs with back-references, which the matcher's model leaves out, are well formed too. */
module RegexBackRefs {
  import opened RegexCode
  import opened RegexAst
  import opened RegexWellFormed
  import opened RegexLoops

  /** Each back-reference replaced by a character, which takes as much room. */
  function Readable(r: Regex): Regex {
    match r
    case Leaf(BackRef(n)) => Leaf(Char(n))
    case Cat(x, y) => Cat(Readable(x), Readable(y))
    case Alt(x, y) => Alt(Readable(x), Readable(y))
    case Star(x) => Star(Readable(x))
    case Plus(x) => Plus(Readable(x))
    case Opt(x) => Opt(Readable(x))
    case Group(g, x) => Group(g, Readable(x))
    case _ => r
  }

  lemma {:induction false} ReadableLen(r: Regex)
    ensures Supported(Readable(r)) && Len(Readable(r)) == Len(r)
  {
    match r
    case Cat(x, y) => ReadableLen(x); ReadableLen(y);
    case Alt(x, y) => ReadableLen(x); ReadableLen(y);
    case Star(x) => ReadableLen(x);
    case Plus(x) => ReadableLen(x);
    case Opt(x) => ReadableLen(x);
    case Group(_, x) => ReadableLen(x);
    case _ =>
  }

  lemma {:induction false} ReadableParts(r: Regex, b: int)
    ensures Own(Readable(r), b) == Own(r, b) && |Parts(Readable(r))| == |Parts(r)|
    ensures forall k :: 0 <= k < |Parts(r)| ==> Parts(Readable(r))[k] == (Readable(Parts(r)[k].0), Parts(r)[k].1)
  {
    hide Len;
    match r
    case Cat(x, _) => ReadableLen(x);
    case Alt(x, _) => ReadableLen(x);
    case Star(x) => ReadableLen(x);
    case Plus(x) => ReadableLen(x);
    case Group(_, x) => ReadableLen(x);
    case _ =>
  }

  lemma {:induction false} ReadableStarts(r: Regex, b: int)
    ensures Starts(Readable(r), b) == Starts(r, b)
    decreases r
  {
    hide Own, Parts, Readable;
    ReadableParts(r, b);
    forall k | 0 <= k < |Parts(r)|
      ensures Starts(Readable(Parts(r)[k].0), b + Parts(r)[k].1) == Starts(Parts(r)[k].0, b + Parts(r)[k].1)
    {
      PartSmaller(r, k);
      ReadableStarts(Parts(r)[k].0, b + Parts(r)[k].1);
    }
  }

  lemma {:induction false} PartSmaller(r: Regex, k: nat)
    requires k < |Parts(r)|
    ensures Parts(r)[k].0 < r && |Parts(r)| <= 2
  {
  }

  /** The codes e and f differ only where, at a start, e has a back-reference and f a character. */
  ghost predicate Differ(e: Code, f: Code, starts: set<int>, b: int) {
    |e| == |f| && forall i :: 0 <= i < |e| ==>
      e[i] == f[i] || (b + i in starts && e[i] == CMATCH_MEMORY && f[i] == CEXACT)
  }

  lemma {:induction false} DifferSame(e: Code, starts: set<int>, b: int)
    ensures Differ(e, e, starts, b)
  {
  }

  lemma {:induction false} DifferJoin(e: Code, f: Code, g: Code, h: Code, starts: set<int>, b: int)
    requires Differ(e, f, starts, b) && Differ(g, h, starts, b + |e|)
    ensures Differ(e + g, f + h, starts, b)
  {
    forall i | |e| <= i < |e + g|
      ensures (e + g)[i] == (f + h)[i] || (b + i in starts && (e + g)[i] == CMATCH_MEMORY && (f + h)[i] == CEXACT)
    {
      var j := i - |e|;
      assert (e + g)[i] == g[j] && (f + h)[i] == h[j];
    }
  }

  lemma {:induction false} DifferAround(e: Code, f: Code, x: Code, y: Code, starts: set<int>, b: int)
    requires Differ(e, f, starts, b + |x|)
    ensures Differ(x + e + y, x + f + y, starts, b)
  {
    hide Differ;
    DifferSame(x, starts, b);
    DifferJoin(x, x, e, f, starts, b);
    DifferSame(y, starts, b + |x + e|);
    DifferJoin(x + e, x + f, y, y, starts, b);
  }

  /** The layouts of each part differ like that. */
  ghost predicate PartsDiffer(r: Regex, starts: set<int>, b: int) {
    forall k :: 0 <= k < |Parts(r)| ==>
      Differ(Emit(Parts(r)[k].0), Emit(Readable(Parts(r)[k].0)), starts, b + Parts(r)[k].1)
  }

  lemma {:induction false} PartDiffers(r: Regex, starts: set<int>, b: int, x: Regex, off: nat, k: nat)
    requires PartsDiffer(r, starts, b) && k < |Parts(r)| && Parts(r)[k] == (x, off)
    ensures Differ(Emit(x), Emit(Readable(x)), starts, b + off) && |Emit(Readable(x))| == |Emit(x)|
  {
    hide Parts, Emit;
  }

  lemma {:induction false} StartsOfPart(r: Regex, b: int, k: nat)
    requires k < |Parts(r)|
    ensures Starts(Parts(r)[k].0, b + Parts(r)[k].1) <= Starts(r, b)
  {
    hide Own, Parts;
    PartSmaller(r, k);
  }

  lemma {:induction false} DifferEmit(r: Regex, starts: set<int>, b: int)
    requires Starts(r, b) <= starts
    ensures Differ(Emit(r), Emit(Readable(r)), starts, b)
    decreases r
  {
    hide Differ, Emit, Parts, Starts, Readable;
    forall k | 0 <= k < |Parts(r)|
      ensures Differ(Emit(Parts(r)[k].0), Emit(Readable(Parts(r)[k].0)), starts, b + Parts(r)[k].1)
    {
      PartSmaller(r, k);
      StartsOfPart(r, b, k);
      DifferEmit(Parts(r)[k].0, starts, b + Parts(r)[k].1);
    }
    if r.Leaf? && r.a.BackRef? { DifferAtom(r.a.n, starts, b); }
    else if r.Alt? { DifferAlt(r, starts, b); }
    else if r.Star? { DifferStar(r, starts, b); }
    else if r.Plus? { DifferPlus(r, starts, b); }
    else { DifferOther(r, starts, b); }
  }

  lemma {:induction false} JumpLength()
    ensures forall op: Byte, d: int {:trigger JumpCode(op, d)} :: |JumpCode(op, d)| == 3
  {
  }

  lemma {:induction false} DifferAtom(n: Byte, starts: set<int>, b: int)
    requires Starts(Leaf(BackRef(n)), b) <= starts
    ensures Differ(Emit(Leaf(BackRef(n))), Emit(Readable(Leaf(BackRef(n)))), starts, b)
  {
    assert b in Own(Leaf(BackRef(n)), b);
  }

  lemma {:induction false} DifferOther(r: Regex, starts: set<int>, b: int)
    requires PartsDiffer(r, starts, b) && !r.Alt? && !r.Star? && !r.Plus? && !(r.Leaf? && r.a.BackRef?)
    ensures Differ(Emit(r), Emit(Readable(r)), starts, b)
  {
    hide Differ, JumpCode, PartsDiffer;
    match r
    case Cat(x, y) =>
      PartDiffers(r, starts, b, x, 0, 0);
      PartDiffers(r, starts, b, y, Len(x), 1);
      DifferJoin(Emit(x), Emit(Readable(x)), Emit(y), Emit(Readable(y)), starts, b);
    case Opt(x) =>
      PartDiffers(r, starts, b, x, 3, 0);
      JumpLength();
      var j := JumpCode(CFAILURE_JUMP, Len(x));
      DifferSame(j, starts, b);
      DifferJoin(j, j, Emit(x), Emit(Readable(x)), starts, b);
    case Group(g, x) =>
      PartDiffers(r, starts, b, x, if g == 0 then 0 else 2, 0);
      if g != 0 { DifferAround(Emit(x), Emit(Readable(x)), [CSTART_MEMORY, g], [CEND_MEMORY, g], starts, b); }
    case _ => DifferSame(Emit(r), starts, b);
  }

  lemma {:induction false} DifferAlt(r: Regex, starts: set<int>, b: int)
    requires PartsDiffer(r, starts, b) && r.Alt?
    ensures Differ(Emit(r), Emit(Readable(r)), starts, b)
  {
    hide Differ, JumpCode, PartsDiffer;
    var x, y := r.left, r.right;
    PartDiffers(r, starts, b, x, 3, 0);
    PartDiffers(r, starts, b, y, 6 + Len(x), 1);
    var j, k := JumpCode(CFAILURE_JUMP, Len(x) + 3), JumpCode(CJUMP, Len(y));
    JumpLength();
    DifferAround(Emit(x), Emit(Readable(x)), j, k, starts, b);
    DifferJoin(j + Emit(x) + k, j + Emit(Readable(x)) + k, Emit(y), Emit(Readable(y)), starts, b);
  }

  lemma {:induction false} DifferLoop(r: Regex, x: Regex, starts: set<int>, b: int, off: nat)
    requires PartsDiffer(r, starts, b) && |Parts(r)| == 1 && Parts(r)[0] == (x, off) && off >= 3
    ensures Differ(StarCode(Emit(x)), StarCode(Emit(Readable(x))), starts, b + off - 3)
  {
    hide Differ, JumpCode, PartsDiffer, Emit, Parts;
    PartDiffers(r, starts, b, x, off, 0);
    JumpLength();
    var l := |Emit(x)|;
    DifferAround(Emit(x), Emit(Readable(x)), JumpCode(CFAILURE_JUMP, l + 3), JumpCode(CSTAR_JUMP, -(l + 6)),
                 starts, b + off - 3);
  }

  lemma {:induction false} DifferStar(r: Regex, starts: set<int>, b: int)
    requires PartsDiffer(r, starts, b) && r.Star?
    ensures Differ(Emit(r), Emit(Readable(r)), starts, b)
  {
    hide Differ, PartsDiffer, StarCode;
    DifferLoop(r, r.body, starts, b, 3);
  }

  lemma {:induction false} DifferPlus(r: Regex, starts: set<int>, b: int)
    requires PartsDiffer(r, starts, b) && r.Plus?
    ensures Differ(Emit(r), Emit(Readable(r)), starts, b)
  {
    hide Differ, JumpCode, PartsDiffer, StarCode;
    var x := r.body;
    DifferLoop(r, x, starts, b, 6);
    JumpLength();
    var d := JumpCode(CDUMMY_FAILURE_JUMP, 3);
    DifferSame(d, starts, b);
    DifferJoin(d, d, StarCode(Emit(x)), StarCode(Emit(Readable(x))), starts, b);
  }

  /** A back-reference with a boundary just after it, or a good instruction, all of whose ways on lead to
      boundaries. */
  ghost predicate GoodOrBackRef(code: Code, bounds: set<int>, p: int) {
    0 <= p < |code| && if code[p] == CMATCH_MEMORY then p + 2 in bounds else GoodAt(code, bounds, p)
  }

  /** Every compiled program, with back-references or not, is well formed. */
  lemma {:induction false} EveryProgram(r: Regex)
    requires Small(r)
    ensures var code, bounds := Program(r), Boundaries(r);
      && 0 in bounds && |code| > 0 && |code| - 1 in bounds
      && (forall p <- bounds :: GoodOrBackRef(code, bounds, p))
      && (forall p <- bounds :: Decode(code, p).End? <==> p == |code| - 1)
      && (forall p <- bounds, x <- bounds :: p < x ==> Next(code, p) <= x)
      && (forall q <- bounds, x <- bounds :: Respects(code, q, x))
  {
    hide Differ, Program, Boundaries, WellFormed, GoodOrBackRef, Respects, Decode, Next;
    var code, bounds, plain := Program(r), Boundaries(r), Program(Readable(r));
    ReadableProgram(r);
    ProgramWellFormed(Readable(r));
    ProgramFacts(r);
    forall p <- bounds ensures GoodOrBackRef(code, bounds, p) && (Decode(code, p).End? <==> p == |code| - 1) {
      SameGood(code, plain, bounds, p);
    }
    forall p <- bounds, x <- bounds ensures (p < x ==> Next(code, p) <= x) && Respects(code, p, x) {
      SamePair(code, plain, bounds, p, x);
    }
  }

  lemma {:induction false} ReadableProgram(r: Regex)
    requires Small(r)
    ensures var x := Readable(r);
      && Supported(x) && Small(x) && Boundaries(x) == Boundaries(r)
      && Differ(Program(r), Program(x), Boundaries(r), 0)
  {
    hide Emit, Starts, Differ, Supported, Len, Readable;
    var x, bounds := Readable(r), Boundaries(r);
    ReadableLen(r);
    ReadableStarts(r, 0);
    DifferEmit(r, bounds, 0);
    DifferSame([CEND], bounds, Len(r));
    DifferJoin(Emit(r), Emit(x), [CEND], [CEND], bounds, 0);
  }

  lemma {:induction false} SameInstr(code: Code, plain: Code, bounds: set<int>, p: int)
    requires Differ(code, plain, bounds, 0) && WellFormed(plain, bounds) && p in bounds
    ensures |code| == |plain| && 0 <= p < |code| && Next(code, p) == Next(plain, p)
    ensures if code[p] == CMATCH_MEMORY then Decode(code, p) == Bad && Decode(plain, p).Read? && Next(plain, p) == p + 2
      else Decode(code, p) == Decode(plain, p)
  {
    hide Decode, Next, WellFormed;
    At(plain, bounds, p);
    if code[p] == CMATCH_MEMORY {
      BackRefHere(code, plain, bounds, p);
    } else {
      forall i | p <= i < Next(plain, p) ensures code[i] == plain[i] {
        if i in bounds && p < i { Apart(plain, bounds, p, i); }
      }
      assert plain[p..Next(plain, p)] == code[p..Next(plain, p)];
      SameBytes(plain, code, p);
    }
  }

  lemma {:induction false} BackRefHere(code: Code, plain: Code, bounds: set<int>, p: int)
    requires Differ(code, plain, bounds, 0) && 0 <= p < |code| && code[p] == CMATCH_MEMORY && Decode(plain, p) != Bad
    ensures Decode(code, p) == Bad && Decode(plain, p).Read? && Next(plain, p) == p + 2 == Next(code, p)
  {
  }

  lemma {:induction false} SameGood(code: Code, plain: Code, bounds: set<int>, p: int)
    requires Differ(code, plain, bounds, 0) && WellFormed(plain, bounds) && p in bounds
    ensures GoodOrBackRef(code, bounds, p) && (Decode(code, p).End? <==> p == |code| - 1)
  {
    hide Decode, Next, WellFormed, Differ;
    SameInstr(code, plain, bounds, p);
    At(plain, bounds, p);
    match Decode(plain, p)
    case StarJump(t) => SameInstr(code, plain, bounds, t);
    case DummyJump(_) => SameInstr(code, plain, bounds, p + 3);
    case _ =>
  }

  lemma {:induction false} SamePair(code: Code, plain: Code, bounds: set<int>, p: int, x: int)
    requires Differ(code, plain, bounds, 0) && WellFormed(plain, bounds) && p in bounds && x in bounds
    ensures (p < x ==> Next(code, p) <= x) && Respects(code, p, x)
  {
    hide Decode, Next, WellFormed, Differ;
    SameInstr(code, plain, bounds, p);
    SameInstr(code, plain, bounds, x);
    if p < x { Apart(plain, bounds, p, x); }
    Respect(plain, bounds, p, x);
  }
}
