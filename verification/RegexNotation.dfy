/** Writing an expression down as a pattern. Reading the pattern back gives the same meaning, which is
    what says that precedence, grouping, quoting and set notation are read as they should be. */
module RegexNotation {
  import opened RegexCode
  import opened RegexAst
  import opened RegexSyntax

  /** The two expressions match the same. */
  ghost predicate Same(r: Regex, s: Regex) {
    forall txt: Text, i: nat, j: nat | i <= |txt| && j <= |txt| :: Matches(r, txt, i, j) <==> Matches(s, txt, i, j)
  }

  // ---- Expressions that match the same ----------------------------------------------------------------

  lemma {:induction false} SplitCat(r: Regex, txt: Text, i: nat, j: nat) returns (m: nat)
    requires r.Cat? && i <= |txt| && j <= |txt| && Matches(r, txt, i, j)
    ensures m <= |txt| && Matches(r.left, txt, i, m) && Matches(r.right, txt, m, j)
  {
    m :| m <= |txt| && Matches(r.left, txt, i, m) && Matches(r.right, txt, m, j);
  }

  lemma {:induction false} JoinCat(x: Regex, y: Regex, txt: Text, i: nat, m: nat, j: nat)
    requires i <= |txt| && m <= |txt| && j <= |txt| && Matches(x, txt, i, m) && Matches(y, txt, m, j)
    ensures Matches(Cat(x, y), txt, i, j)
  {
  }

  lemma {:induction false} SameCat(x: Regex, x': Regex, y: Regex, y': Regex)
    requires Same(x, x') && Same(y, y')
    ensures Same(Cat(x, y), Cat(x', y'))
  {
    hide Matches;
    forall txt: Text, i: nat, j: nat | i <= |txt| && j <= |txt|
      ensures Matches(Cat(x, y), txt, i, j) <==> Matches(Cat(x', y'), txt, i, j)
    {
      if Matches(Cat(x, y), txt, i, j) {
        var m := SplitCat(Cat(x, y), txt, i, j);
        JoinCat(x', y', txt, i, m, j);
      }
      if Matches(Cat(x', y'), txt, i, j) {
        var m := SplitCat(Cat(x', y'), txt, i, j);
        JoinCat(x, y, txt, i, m, j);
      }
    }
  }

  lemma {:induction false} SameAlt(x: Regex, x': Regex, y: Regex, y': Regex)
    requires Same(x, x') && Same(y, y')
    ensures Same(Alt(x, y), Alt(x', y'))
  {
  }

  lemma {:induction false} CatAssociates(x: Regex, y: Regex, z: Regex)
    ensures Same(Cat(Cat(x, y), z), Cat(x, Cat(y, z)))
  {
    hide Matches;
    forall txt: Text, i: nat, j: nat | i <= |txt| && j <= |txt|
      ensures Matches(Cat(Cat(x, y), z), txt, i, j) <==> Matches(Cat(x, Cat(y, z)), txt, i, j)
    {
      if Matches(Cat(Cat(x, y), z), txt, i, j) { CatRight(x, y, z, txt, i, j); }
      if Matches(Cat(x, Cat(y, z)), txt, i, j) { CatLeft(x, y, z, txt, i, j); }
    }
  }

  lemma {:induction false} CatRight(x: Regex, y: Regex, z: Regex, txt: Text, i: nat, j: nat)
    requires i <= |txt| && j <= |txt| && Matches(Cat(Cat(x, y), z), txt, i, j)
    ensures Matches(Cat(x, Cat(y, z)), txt, i, j)
  {
    hide Matches;
    var m := SplitCat(Cat(Cat(x, y), z), txt, i, j);
    var n := SplitCat(Cat(x, y), txt, i, m);
    JoinCat(y, z, txt, n, m, j);
    JoinCat(x, Cat(y, z), txt, i, n, j);
  }

  lemma {:induction false} CatLeft(x: Regex, y: Regex, z: Regex, txt: Text, i: nat, j: nat)
    requires i <= |txt| && j <= |txt| && Matches(Cat(x, Cat(y, z)), txt, i, j)
    ensures Matches(Cat(Cat(x, y), z), txt, i, j)
  {
    hide Matches;
    var n := SplitCat(Cat(x, Cat(y, z)), txt, i, j);
    var m := SplitCat(Cat(y, z), txt, n, j);
    JoinCat(x, y, txt, i, n, m);
    JoinCat(Cat(x, y), z, txt, i, m, j);
  }

  lemma {:induction false} CatEmpty(r: Regex)
    ensures Same(Cat(Empty, r), r) && Same(Cat(r, Empty), r)
  {
    forall txt: Text, i: nat, j: nat | i <= |txt| && j <= |txt|
      ensures Matches(Cat(Empty, r), txt, i, j) <==> Matches(r, txt, i, j)
      ensures Matches(Cat(r, Empty), txt, i, j) <==> Matches(r, txt, i, j)
    {
      assert Matches(Empty, txt, i, i) && Matches(Empty, txt, j, j);
    }
  }

  lemma {:induction false} SameRepeats(x: Regex, y: Regex, txt: Text, i: nat, j: nat, n: nat)
    requires Same(x, y) && i <= |txt| && j <= |txt| && Repeats(x, txt, i, j, n)
    ensures Repeats(y, txt, i, j, n)
    decreases n
  {
    hide Matches;
    if n > 0 {
      var m: nat :| m <= |txt| && Matches(x, txt, i, m) && Repeats(x, txt, m, j, n - 1);
      SameRepeats(x, y, txt, m, j, n - 1);
      assert Matches(y, txt, i, m);
    }
  }

  /** An operator applied to an operand, or to nothing, which leaves nothing. */
  predicate IsPostfix(t: Tok) {
    t == TOpt || t == TStar || t == TPlus
  }

  function Postfixed(t: Tok, r: Regex): Regex
    requires IsPostfix(t)
  {
    if t == TOpt then Opt(r) else if t == TStar then Star(r) else Plus(r)
  }

  lemma {:induction false} SamePostfixed(t: Tok, x: Regex, y: Regex)
    requires IsPostfix(t) && Same(x, y)
    ensures Same(Postfixed(t, x), Postfixed(t, y))
  {
    hide Repeats;
    forall txt: Text, i: nat, j: nat | i <= |txt| && j <= |txt|
      ensures Matches(Postfixed(t, x), txt, i, j) <==> Matches(Postfixed(t, y), txt, i, j)
    {
      if t != TOpt {
        forall n: nat ensures Repeats(x, txt, i, j, n) <==> Repeats(y, txt, i, j, n) {
          if Repeats(x, txt, i, j, n) { SameRepeats(x, y, txt, i, j, n); }
          if Repeats(y, txt, i, j, n) { SameRepeats(y, x, txt, i, j, n); }
        }
      }
    }
  }

  /** What takes no code matches the empty string only. */
  lemma {:induction false} NothingMatches(r: Regex)
    requires Len(r) == 0
    ensures Same(r, Empty)
    decreases r
  {
    match r
    case Empty =>
    case Cat(x, y) =>
      NothingMatches(x);
      NothingMatches(y);
      SameCat(x, Empty, y, Empty);
      CatEmpty(Empty);
    case Group(_, x) => NothingMatches(x);
    case Leaf(_) =>
    case Alt(_, _) =>
    case Star(_) =>
    case Plus(_) =>
    case Opt(_) =>
  }

  lemma {:induction false} EmptyRepeats(r: Regex, txt: Text, i: nat, j: nat, n: nat)
    requires Same(r, Empty) && i <= |txt| && j <= |txt|
    ensures Repeats(r, txt, i, j, n) <==> i == j
    decreases n
  {
    if n > 0 {
      assert forall m: nat | m <= |txt| :: Matches(r, txt, i, m) <==> Matches(Empty, txt, i, m);
      EmptyRepeats(r, txt, i, j, n - 1);
      if i == j { assert Matches(Empty, txt, i, i); }
    }
  }

  lemma {:induction false} PostfixedNothing(t: Tok, r: Regex)
    requires IsPostfix(t) && Same(r, Empty)
    ensures Same(Postfixed(t, r), r)
  {
    hide Repeats;
    forall txt: Text, i: nat, j: nat | i <= |txt| && j <= |txt|
      ensures Matches(Postfixed(t, r), txt, i, j) <==> Matches(r, txt, i, j)
    {
      assert Matches(r, txt, i, j) <==> Matches(Empty, txt, i, j);
      if t != TOpt {
        forall n: nat ensures Repeats(r, txt, i, j, n) <==> i == j { EmptyRepeats(r, txt, i, j, n); }
        assert Repeats(r, txt, i, j, 1) <==> i == j;
      }
    }
  }

  lemma {:induction false} SameAlternatives(alts: seq<Regex>, x: Regex, y: Regex)
    requires Same(x, y)
    ensures Same(AltOf(alts, x), AltOf(alts, y))
  {
    hide Matches;
    if alts != [] {
      SameAlternatives(alts[1..], x, y);
      SameAlt(alts[0], alts[0], AltOf(alts[1..], x), AltOf(alts[1..], y));
    }
  }

  lemma {:induction false} OneMoreAlternative(alts: seq<Regex>, x: Regex, y: Regex)
    ensures AltOf(alts + [x], y) == AltOf(alts, Alt(x, y))
  {
    if alts == [] {
      assert [x][1..] == [];
    } else {
      assert (alts + [x])[1..] == alts[1..] + [x];
      OneMoreAlternative(alts[1..], x, y);
    }
  }

  // ---- The tokens of an expression --------------------------------------------------------------------

  predicate IsLineTest(a: Atom) {
    a == Assert(CBOL) || a == Assert(CEOL)
  }

  /** How tightly the outermost operator binds: alternatives 0, sequences 1, operands 2. */
  function Prec(r: Regex): nat {
    match r
    case Alt(_, _) => 0
    case Cat(_, _) => 1
    case Empty => 1
    case _ => 2
  }

  function Paren(ts: seq<Tok>): seq<Tok> {
    [TOpen] + ts + [TClose]
  }

  /** The tokens of r where an operand of this precedence is expected. */
  function Tokens(r: Regex, level: nat): seq<Tok>
    decreases r, 1
  {
    if level > Prec(r) then Paren(Core(r)) else Core(r)
  }

  function Core(r: Regex): seq<Tok>
    decreases r, 0
  {
    match r
    case Empty => []
    case Leaf(a) => if IsLineTest(a) then Paren([TLow(a)]) else [TAtom(a)]
    case Cat(x, y) => Tokens(x, 1) + Tokens(y, 1)
    case Alt(x, y) => Tokens(x, 1) + [TOr] + Tokens(y, 0)
    case Star(x) => Tokens(x, 2) + [TStar]
    case Plus(x) => Tokens(x, 2) + [TPlus]
    case Opt(x) => Tokens(x, 2) + [TOpt]
    case Group(_, x) => Paren(Tokens(x, 0))
  }

  function ApplyAll(tight: bool, st: Parse, ts: seq<Tok>): Result<Parse>
    decreases |ts|
  {
    if ts == [] then Ok(st)
    else
      match Apply(tight, st, ts[0])
      case Err(e) => Err(e)
      case Ok(st') => ApplyAll(tight, st', ts[1..])
  }

  function Then(tight: bool, r: Result<Parse>, ts: seq<Tok>): Result<Parse> {
    match r
    case Err(e) => Err(e)
    case Ok(st) => ApplyAll(tight, st, ts)
  }

  lemma {:induction false} ApplySplit(tight: bool, st: Parse, ts: seq<Tok>, us: seq<Tok>)
    ensures ApplyAll(tight, st, ts + us) == Then(tight, ApplyAll(tight, st, ts), us)
    decreases |ts|
  {
    hide Apply;
    if ts == [] {
      assert ts + us == us;
    } else {
      assert (ts + us)[1..] == ts[1..] + us && (ts + us)[0] == ts[0];
      match Apply(tight, st, ts[0])
      case Err(_) =>
      case Ok(st') => ApplySplit(tight, st', ts[1..], us);
    }
  }

  lemma {:induction false} ApplyOne(tight: bool, st: Parse, t: Tok)
    ensures ApplyAll(tight, st, [t]) == Apply(tight, st, t)
  {
    hide Apply;
    assert [t][1..] == [];
  }

  // ---- What the tokens of an expression do to the parse -------------------------------------------

  /** Frame g is frame f after reading r where an operand of this precedence is expected. */
  ghost predicate Grown(level: nat, r: Regex, f: Frame, g: Frame) {
    && g.done == f.done
    && (level >= 2 ==> g.alts == f.alts && g.cat == Cat(f.cat, f.last) && Same(g.last, r))
    && (level == 1 ==> g.alts == f.alts && Same(Cat(g.cat, g.last), Cat(Cat(f.cat, f.last), r)))
    && (level == 0 && Same(Cat(f.cat, f.last), Empty) ==>
          Same(AltOf(g.alts, Cat(g.cat, g.last)), AltOf(f.alts, r)))
  }

  /** The tokens either exceed the nesting limits or leave the current frame grown by r. */
  ghost predicate Reads(level: nat, r: Regex, st: Parse, res: Result<Parse>) {
    match res
    case Err(e) => e == TooComplex
    case Ok(st') => st'.outer == st.outer && Grown(level, r, st.top, st'.top)
  }

  lemma {:induction false} Weaker(level: nat, low: nat, r: Regex, f: Frame, g: Frame)
    requires Grown(level, r, f, g) && low <= level <= 2
    ensures Grown(low, r, f, g)
    decreases level
  {
    hide Same, AltOf;
    if level == 2 && low < 2 {
      SameRefl(Cat(f.cat, f.last));
      SameCat(g.cat, Cat(f.cat, f.last), g.last, r);
      Weaker(1, low, r, f, g);
    } else if level == 1 && low == 0 {
      if Same(Cat(f.cat, f.last), Empty) {
        SameRefl(r);
        SameCat(Cat(f.cat, f.last), Empty, r, r);
        CatEmpty(r);
        SameTrans(Cat(g.cat, g.last), Cat(Cat(f.cat, f.last), r), Cat(Empty, r));
        SameTrans(Cat(g.cat, g.last), Cat(Empty, r), r);
        SameAlternatives(f.alts, Cat(g.cat, g.last), r);
      }
    }
  }

  lemma {:induction false} SameRefl(x: Regex)
    ensures Same(x, x)
  {
  }

  lemma {:induction false} SameTrans(x: Regex, y: Regex, z: Regex)
    requires Same(x, y) && Same(y, z)
    ensures Same(x, z)
  {
    hide Matches;
    forall txt: Text, i: nat, j: nat | i <= |txt| && j <= |txt|
      ensures Matches(x, txt, i, j) <==> Matches(z, txt, i, j)
    {
      assert Matches(x, txt, i, j) <==> Matches(y, txt, i, j);
    }
  }

  lemma {:induction false} ReadsTokens(tight: bool, r: Regex, level: nat, st: Parse)
    requires level <= 2
    ensures Reads(level, r, st, ApplyAll(tight, st, Tokens(r, level)))
    decreases r, 2
  {
    hide Apply, Grown, Core, ApplyAll;
    if level > Prec(r) {
      ReadsCore(tight, r, Inside(st));
      var inner := ApplyAll(tight, Inside(st), Core(r));
      if inner.Ok? { Weaker(Prec(r), 0, r, NO_FRAME, inner.value.top); }
      FillsFrame(r, st, inner);
      ParenAround(tight, r, r, Core(r), st);
      var res := ApplyAll(tight, st, Tokens(r, level));
      if res.Ok? { Weaker(2, level, r, st.top, res.value.top); }
    } else {
      ReadsCore(tight, r, st);
      var res := ApplyAll(tight, st, Core(r));
      if res.Ok? { Weaker(Prec(r), level, r, st.top, res.value.top); }
    }
  }

  /** The parse inside a group that has just been opened. */
  function Inside(st: Parse): Parse {
    var reg := Register(st);
    Parse(st.outer + [(Settled(st.top, false), reg)], NO_FRAME, st.nextRegister + (if reg == 0 then 0 else 1))
  }

  /** Read from the start of a group, the tokens make a frame that matches like r. */
  ghost predicate Fills(r: Regex, st: Parse, res: Result<Parse>) {
    match res
    case Err(e) => e == TooComplex
    case Ok(st') => st'.outer == Inside(st).outer && Same(Whole(st'.top), r)
  }

  lemma {:induction false} FillsFrame(r: Regex, st: Parse, res: Result<Parse>)
    requires Reads(0, r, Inside(st), res)
    ensures Fills(r, st, res)
  {
    hide Same, Whole;
    CatEmpty(Empty);
    if res.Ok? { WholeSame(res.value.top, r); }
  }

  lemma {:induction false} WholeSame(f: Frame, r: Regex)
    requires f.done == Empty && Same(AltOf(f.alts, Cat(f.cat, f.last)), AltOf([], r))
    ensures Same(Whole(f), r)
  {
    hide Matches;
    var w := AltOf(f.alts, Cat(f.cat, f.last));
    CatEmpty(w);
    assert AltOf([], r) == r;
    SameTrans(Cat(Empty, w), w, r);
  }

  /** Parentheses around tokens make an operand. */
  lemma {:induction false} ParenAround(tight: bool, r: Regex, whole: Regex, ts: seq<Tok>, st: Parse)
    requires whole == r || (whole.Group? && whole.body == r)
    requires Fills(r, st, ApplyAll(tight, Inside(st), ts))
    ensures Reads(2, whole, st, ApplyAll(tight, st, Paren(ts)))
  {
    hide Same, Whole;
    ApplySplit(tight, st, [TOpen] + ts, [TClose]);
    ApplySplit(tight, st, [TOpen], ts);
    ApplyOne(tight, st, TOpen);
    var res := ApplyAll(tight, Inside(st), ts);
    if Apply(tight, st, TOpen).Ok? && res.Ok? {
      var st2 := res.value;
      ApplyOne(tight, st2, TClose);
      assert st2.outer[..|st2.outer| - 1] == st.outer;
      GroupSame(Register(st), Whole(st2.top), r, whole);
    }
  }

  lemma {:induction false} GroupSame(reg: Byte, x: Regex, r: Regex, whole: Regex)
    requires Same(x, r) && (whole == r || (whole.Group? && whole.body == r))
    ensures Same(Group(reg, x), whole)
  {
  }

  lemma {:induction false} ReadsCore(tight: bool, r: Regex, st: Parse)
    ensures Reads(Prec(r), r, st, ApplyAll(tight, st, Core(r)))
    decreases r, 0
  {
    hide Apply, Grown, Tokens, ApplyAll, Same;
    match r
    case Empty => ReadsEmpty(tight, st);
    case Leaf(a) => ReadsLeaf(tight, a, st);
    case Cat(x, y) =>
      ReadsTokens(tight, x, 1, st);
      ApplySplit(tight, st, Tokens(x, 1), Tokens(y, 1));
      var res := ApplyAll(tight, st, Tokens(x, 1));
      if res.Ok? {
        ReadsTokens(tight, y, 1, res.value);
        var res' := ApplyAll(tight, res.value, Tokens(y, 1));
        if res'.Ok? { GrownCat(x, y, st.top, res.value.top, res'.value.top); }
      }
    case Alt(x, y) =>
      ReadsTokens(tight, x, 1, st);
      AltSplit(tight, x, y, st);
      var res := ApplyAll(tight, st, Tokens(x, 1));
      if res.Ok? && Apply(tight, res.value, TOr).Ok? {
        OrApplied(tight, res.value);
        var st2 := Apply(tight, res.value, TOr).value;
        ReadsTokens(tight, y, 0, st2);
        var res' := ApplyAll(tight, st2, Tokens(y, 0));
        if res'.Ok? { GrownAlt(x, y, st.top, res.value.top, st2.top, res'.value.top); }
      } else if res.Ok? { OrApplied(tight, res.value); }
    case Star(x) =>
      ReadsTokens(tight, x, 2, st);
      ReadsPostfix(tight, x, TStar, st);
    case Plus(x) =>
      ReadsTokens(tight, x, 2, st);
      ReadsPostfix(tight, x, TPlus, st);
    case Opt(x) =>
      ReadsTokens(tight, x, 2, st);
      ReadsPostfix(tight, x, TOpt, st);
    case Group(_, x) =>
      ReadsTokens(tight, x, 0, Inside(st));
      FillsFrame(x, st, ApplyAll(tight, Inside(st), Tokens(x, 0)));
      ParenAround(tight, x, r, Tokens(x, 0), st);
  }

  lemma {:induction false} ReadsEmpty(tight: bool, st: Parse)
    ensures Reads(1, Empty, st, ApplyAll(tight, st, []))
  {
    hide Same;
    var c := Cat(st.top.cat, st.top.last);
    CatEmpty(c);
    SameFlip(Cat(c, Empty), c);
  }

  lemma {:induction false} SameFlip(x: Regex, y: Regex)
    requires Same(x, y)
    ensures Same(y, x)
  {
  }

  lemma {:induction false} ReadsLeaf(tight: bool, a: Atom, st: Parse)
    ensures Reads(2, Leaf(a), st, ApplyAll(tight, st, Core(Leaf(a))))
  {
    hide Same, ApplyAll;
    SameRefl(Leaf(a));
    if IsLineTest(a) {
      ApplyOne(tight, Inside(st), TLow(a));
      LowSame(tight, a, Inside(st));
      ParenAround(tight, Leaf(a), Leaf(a), [TLow(a)], st);
    } else {
      ApplyOne(tight, st, TAtom(a));
    }
  }

  lemma {:induction false} LowSame(tight: bool, a: Atom, st: Parse)
    requires st.top == NO_FRAME
    ensures var res := Apply(tight, st, TLow(a));
      res.Ok? && res.value.outer == st.outer && Same(Whole(res.value.top), Leaf(a))
  {
    hide Matches, Same;
    var l, e2 := Leaf(a), Cat(Empty, Empty);
    CatEmpty(Empty);
    SameRefl(l);
    CatEmpty(l);
    SameCat(e2, Empty, l, l);
    SameTrans(Cat(e2, l), Cat(Empty, l), l);
    var f := Apply(tight, st, TLow(a)).value.top;
    if tight {
      SameRefl(Empty);
      SameCat(Empty, Empty, e2, Empty);
      SameTrans(Cat(Empty, e2), e2, Empty);
      assert Whole(NO_FRAME) == Cat(Empty, e2);
      SameCat(Cat(Empty, e2), Empty, l, l);
      SameTrans(Cat(Cat(Empty, e2), l), Cat(Empty, l), l);
      SameCat(Cat(Cat(Empty, e2), l), l, e2, Empty);
      SameTrans(Whole(f), Cat(l, Empty), l);
    } else {
      assert Whole(f) == Cat(Empty, Cat(Cat(e2, l), Empty));
      CatEmpty(Cat(e2, l));
      CatEmpty(Cat(Cat(e2, l), Empty));
      SameTrans(Whole(f), Cat(Cat(e2, l), Empty), Cat(e2, l));
      SameTrans(Whole(f), Cat(e2, l), l);
    }
  }

  lemma {:induction false} GrownCat(x: Regex, y: Regex, f: Frame, g: Frame, h: Frame)
    requires Grown(1, x, f, g) && Grown(1, y, g, h)
    ensures Grown(1, Cat(x, y), f, h)
  {
    hide Same;
    var c := Cat(f.cat, f.last);
    SameRefl(y);
    SameCat(Cat(g.cat, g.last), Cat(c, x), y, y);
    SameTrans(Cat(h.cat, h.last), Cat(Cat(g.cat, g.last), y), Cat(Cat(c, x), y));
    CatAssociates(c, x, y);
    SameTrans(Cat(h.cat, h.last), Cat(Cat(c, x), y), Cat(c, Cat(x, y)));
  }

  lemma {:induction false} AltSplit(tight: bool, x: Regex, y: Regex, st: Parse)
    ensures ApplyAll(tight, st, Core(Alt(x, y))) ==
      Then(tight, Then(tight, ApplyAll(tight, st, Tokens(x, 1)), [TOr]), Tokens(y, 0))
  {
    hide ApplyAll, Tokens;
    ApplySplit(tight, st, Tokens(x, 1) + [TOr], Tokens(y, 0));
    ApplySplit(tight, st, Tokens(x, 1), [TOr]);
  }

  lemma {:induction false} OrApplied(tight: bool, st: Parse)
    ensures ApplyAll(tight, st, [TOr]) == Apply(tight, st, TOr)
    ensures match Apply(tight, st, TOr)
      case Err(e) => e == TooComplex
      case Ok(st') =>
        && st'.outer == st.outer
        && st'.top == Frame(st.top.done, st.top.alts + [Cat(st.top.cat, st.top.last)], Empty, Empty)
  {
    ApplyOne(tight, st, TOr);
  }

  lemma {:induction false} GrownAlt(x: Regex, y: Regex, f: Frame, g: Frame, h: Frame, k: Frame)
    requires Grown(1, x, f, g) && Grown(0, y, h, k)
    requires h == Frame(g.done, g.alts + [Cat(g.cat, g.last)], Empty, Empty)
    ensures Grown(0, Alt(x, y), f, k)
  {
    hide Same, AltOf;
    var c, w := Cat(g.cat, g.last), AltOf(k.alts, Cat(k.cat, k.last));
    CatEmpty(Empty);
    OneMoreAlternative(f.alts, c, y);
    assert Same(w, AltOf(f.alts, Alt(c, y)));
    if Same(Cat(f.cat, f.last), Empty) {
      SameRefl(x);
      SameRefl(y);
      CatEmpty(x);
      SameCat(Cat(f.cat, f.last), Empty, x, x);
      SameTrans(c, Cat(Cat(f.cat, f.last), x), Cat(Empty, x));
      SameTrans(c, Cat(Empty, x), x);
      SameAlt(c, x, y, y);
      SameAlternatives(f.alts, Alt(c, y), Alt(x, y));
      SameTrans(w, AltOf(f.alts, Alt(c, y)), AltOf(f.alts, Alt(x, y)));
    }
  }

  lemma {:induction false} ReadsPostfix(tight: bool, x: Regex, t: Tok, st: Parse)
    requires IsPostfix(t) && Reads(2, x, st, ApplyAll(tight, st, Tokens(x, 2)))
    ensures Reads(2, Postfixed(t, x), st, ApplyAll(tight, st, Tokens(x, 2) + [t]))
  {
    hide Same, Tokens, Postfixed, Len;
    ApplySplit(tight, st, Tokens(x, 2), [t]);
    var res := ApplyAll(tight, st, Tokens(x, 2));
    if res.Ok? {
      var f := res.value.top;
      ApplyOne(tight, res.value, t);
      SamePostfixed(t, f.last, x);
      PostfixApplied(tight, res.value, t);
      if Len(f.last) == 0 {
        NothingMatches(f.last);
        PostfixedNothing(t, f.last);
        SameFlip(Postfixed(t, f.last), f.last);
        SameTrans(f.last, Postfixed(t, f.last), Postfixed(t, x));
      }
    }
  }

  lemma {:induction false} PostfixApplied(tight: bool, st: Parse, t: Tok)
    requires IsPostfix(t)
    ensures Apply(tight, st, t)
      == Ok(if Len(st.top.last) == 0 then st else st.(top := st.top.(last := Postfixed(t, st.top.last))))
  {
  }

  // ---- Nesting limits ------------------------------------------------------------------------------------

  function Opens(ts: seq<Tok>): nat {
    if ts == [] then 0 else (if ts[0] == TOpen then 1 else 0) + Opens(ts[1..])
  }

  function Bars(ts: seq<Tok>): nat {
    if ts == [] then 0 else (if ts[0] == TOr then 1 else 0) + Bars(ts[1..])
  }

  /** Tokens with few enough parentheses and alternatives never exceed the limits. */
  lemma {:induction false} EnoughRoom(tight: bool, st: Parse, ts: seq<Tok>)
    requires |st.outer| + Opens(ts) < MAX_NESTING && Pending(st.outer) + |st.top.alts| + Bars(ts) <= MAX_NESTING
    ensures ApplyAll(tight, st, ts) != Err(TooComplex)
    decreases |ts|
  {
    hide Apply, Pending;
    if ts != [] {
      RoomAfter(tight, st, ts[0]);
      var res := Apply(tight, st, ts[0]);
      if res.Ok? { EnoughRoom(tight, res.value, ts[1..]); }
    }
  }

  lemma {:induction false} RoomAfter(tight: bool, st: Parse, t: Tok)
    ensures match Apply(tight, st, t)
      case Err(e) => e == TooComplex ==>
        (t == TOpen && |st.outer| >= MAX_NESTING - 1) || (t == TOr && Pending(st.outer) + |st.top.alts| >= MAX_NESTING)
      case Ok(st') =>
        && |st'.outer| <= |st.outer| + (if t == TOpen then 1 else 0)
        && Pending(st'.outer) + |st'.top.alts| <= Pending(st.outer) + |st.top.alts| + (if t == TOr then 1 else 0)
  {
    hide Len, Whole;
    if t == TOpen {
      var outer' := st.outer + [(Settled(st.top, false), Register(st))];
      assert outer'[..|outer'| - 1] == st.outer;
    }
  }
}
