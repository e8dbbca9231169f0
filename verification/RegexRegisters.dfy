/** How groups are numbered: in the order in which they are opened, up to the last register. */
module RegexRegisters {
  import opened RegexCode
  import opened RegexAst
  import opened RegexSyntax
  import opened RegexNotation

  /** The registers of the groups of r, in the order in which they are opened. */
  function Registers(r: Regex): seq<Byte> {
    match r
    case Empty => []
    case Leaf(_) => []
    case Cat(x, y) => Registers(x) + Registers(y)
    case Alt(x, y) => Registers(x) + Registers(y)
    case Star(x) => Registers(x)
    case Plus(x) => Registers(x)
    case Opt(x) => Registers(x)
    case Group(g, x) => [g] + Registers(x)
  }

  /** The first nine groups have the registers 1 to 9, and the others none. */
  predicate Numbered(rs: seq<Byte>) {
    forall k :: 0 <= k < |rs| ==> rs[k] == if k < 9 then k + 1 else 0
  }

  lemma {:induction false} AltRegisters(alts: seq<Regex>, x: Regex)
    ensures Registers(AltOf(alts, x)) == Registers(AltOf(alts, Empty)) + Registers(x)
  {
    if alts != [] { AltRegisters(alts[1..], x); }
  }

  /** The registers of a frame, in the order in which its groups were opened. */
  lemma {:induction false} FrameRegisters(f: Frame)
    ensures Registers(Whole(f)) ==
      Registers(f.done) + Registers(AltOf(f.alts, Empty)) + Registers(f.cat) + Registers(f.last)
  {
    hide AltOf;
    AltRegisters(f.alts, Cat(f.cat, f.last));
    assert Registers(Cat(f.cat, f.last)) == Registers(f.cat) + Registers(f.last);
  }

  function OuterRegisters(outer: seq<(Frame, Byte)>): seq<Byte> {
    if outer == [] then []
    else
      var n := |outer| - 1;
      OuterRegisters(outer[..n]) + Registers(Whole(outer[n].0)) + [outer[n].1]
  }

  function AllRegisters(st: Parse): seq<Byte> {
    OuterRegisters(st.outer) + Registers(Whole(st.top))
  }

  /** All groups so far are numbered, the next number is known, and no enclosing level has an operand. */
  ghost predicate Counted(st: Parse) {
    && Numbered(AllRegisters(st))
    && st.nextRegister == (if |AllRegisters(st)| < 9 then |AllRegisters(st)| + 1 else 10)
    && forall k :: 0 <= k < |st.outer| ==> st.outer[k].0.last == Empty
  }

  lemma {:induction false} SettledRegisters(f: Frame, alternatives: bool)
    ensures Registers(Whole(Settled(f, alternatives))) == Registers(Whole(f))
    ensures Settled(f, alternatives).last == Empty
  {
    hide AltOf, Whole;
    FrameRegisters(f);
    FrameRegisters(Settled(f, alternatives));
    NoAlternatives();
  }

  /** The operand is settled and another takes its place. */
  lemma {:induction false} OperandRegisters(f: Frame, x: Regex)
    ensures Registers(Whole(f.(cat := Cat(f.cat, f.last), last := x))) == Registers(Whole(f)) + Registers(x)
  {
    hide AltOf, Whole;
    FrameRegisters(f);
    FrameRegisters(f.(cat := Cat(f.cat, f.last), last := x));
  }

  lemma {:induction false} LastRegisters(f: Frame, x: Regex)
    requires Registers(x) == Registers(f.last)
    ensures Registers(Whole(f.(last := x))) == Registers(Whole(f))
  {
    hide AltOf, Whole;
    FrameRegisters(f);
    FrameRegisters(f.(last := x));
  }

  lemma {:induction false} LowRegisters(g: Frame, x: Regex)
    requires Registers(x) == [] && g.last == Empty
    ensures Registers(Whole(g.(cat := Cat(g.cat, x)))) == Registers(Whole(g))
    ensures g.alts == [] && g.cat == Empty ==>
      Registers(Whole(g.(done := Cat(g.done, x)))) == Registers(Whole(g))
  {
    hide AltOf, Whole;
    FrameRegisters(g);
    FrameRegisters(g.(cat := Cat(g.cat, x)));
    FrameRegisters(g.(done := Cat(g.done, x)));
  }

  lemma {:induction false} OrRegisters(g: Frame)
    requires g.last == Empty
    ensures Registers(Whole(g.(alts := g.alts + [g.cat], cat := Empty))) == Registers(Whole(g))
  {
    hide AltOf, Whole;
    var h := g.(alts := g.alts + [g.cat], cat := Empty);
    FrameRegisters(g);
    FrameRegisters(h);
    OneMoreAlternative(g.alts, g.cat, Empty);
    AltRegisters(g.alts, Alt(g.cat, Empty));
  }

  /** A token that opens or closes no group leaves the registers as they are. */
  lemma {:induction false} ApplyInside(tight: bool, st: Parse, t: Tok)
    requires t != TOpen && t != TClose && Apply(tight, st, t).Ok?
    ensures var st' := Apply(tight, st, t).value;
      && st'.outer == st.outer && st'.nextRegister == st.nextRegister
      && Registers(Whole(st'.top)) == Registers(Whole(st.top))
  {
    hide AltOf, Len, Pending, Whole;
    var f := st.top;
    match t
    case TAtom(a) => OperandRegisters(f, Leaf(a));
    case TLow(a) =>
      SettledRegisters(f, tight);
      LowRegisters(Settled(f, tight), Leaf(a));
    case TOpt => LastRegisters(f, Opt(f.last));
    case TStar => LastRegisters(f, Star(f.last));
    case TPlus => LastRegisters(f, Plus(f.last));
    case TOr =>
      SettledRegisters(f, false);
      OrRegisters(Settled(f, false));
  }

  lemma {:induction false} NoAlternatives()
    ensures Registers(AltOf([], Empty)) == []
  {
  }

  lemma {:induction false} ApplyOpen(tight: bool, st: Parse)
    requires Apply(tight, st, TOpen).Ok?
    ensures AllRegisters(Apply(tight, st, TOpen).value) == AllRegisters(st) + [Register(st)]
  {
    hide AltOf, Whole;
    var st' := Apply(tight, st, TOpen).value;
    SettledRegisters(st.top, false);
    FrameRegisters(NO_FRAME);
    NoAlternatives();
    assert st'.outer[..|st.outer|] == st.outer;
  }

  lemma {:induction false} ApplyClose(tight: bool, st: Parse)
    requires Apply(tight, st, TClose).Ok? && st.outer[|st.outer| - 1].0.last == Empty
    ensures AllRegisters(Apply(tight, st, TClose).value) == AllRegisters(st)
  {
    hide AltOf;
    var n := |st.outer| - 1;
    var (g, reg) := st.outer[n];
    var st' := Apply(tight, st, TClose).value;
    FrameRegisters(g);
    FrameRegisters(st'.top);
    assert st'.top.last == Group(reg, Whole(st.top));
  }

  lemma {:induction false} ApplyCounted(tight: bool, st: Parse, t: Tok)
    requires Counted(st) && Apply(tight, st, t).Ok?
    ensures Counted(Apply(tight, st, t).value)
  {
    hide Whole, Registers, OuterRegisters, Len, Pending;
    var st' := Apply(tight, st, t).value;
    if t == TOpen {
      ApplyOpen(tight, st);
    } else if t == TClose {
      ApplyClose(tight, st);
    } else {
      ApplyInside(tight, st, t);
    }
  }

  lemma {:induction false} ParseCounted(syn: Syntax, pat: Text, pos: nat, begins: bool, st: Parse)
    requires pos <= |pat| && Counted(st)
    ensures var r := ParseFrom(syn, pat, pos, begins, st); r.Ok? ==> Numbered(Registers(r.value))
    decreases |pat| - pos
  {
    hide Lex, Apply, Counted;
    if pos == |pat| {
      if st.outer == [] { AtEnd(st); }
    } else {
      match Lex(syn, pat, pos, begins)
      case Err(_) =>
      case Ok(l) =>
        match Apply(syn.tightVbar, st, l.tok)
        case Err(_) =>
        case Ok(st') =>
          ApplyCounted(syn.tightVbar, st, l.tok);
          ParseCounted(syn, pat, l.next, BeginsAfter(l.tok), st');
    }
  }

  lemma {:induction false} AtEnd(st: Parse)
    requires st.outer == [] && Counted(st)
    ensures Numbered(Registers(Settled(st.top, true).done))
  {
    hide Whole;
    assert AllRegisters(st) == Registers(Whole(st.top));
  }

  /** In every pattern, the groups are numbered in the order of their opening parentheses. */
  lemma {:induction false} InOrderOfOpening(syn: Syntax, pat: Text)
    ensures var r := ParsePattern(syn, pat); r.Ok? ==> Numbered(Registers(r.value))
  {
    hide ParseFrom;
    assert AllRegisters(Parse([], NO_FRAME, 1)) == [];
    ParseCounted(syn, pat, 0, true, Parse([], NO_FRAME, 1));
  }
}
