/** Lines, alternatives and anchors: which of `|`, `^` and `$` binds more tightly. */
module RegexLines {
  import opened RegexCode
  import opened RegexAst
  import opened RegexSyntax
  import opened RegexNotation
  import opened RegexSpelling
  import opened RegexReading

  lemma {:induction false} TextAppend(syn: Syntax, ts: seq<Tok>, us: seq<Tok>)
    ensures TextOf(syn, ts + us) == TextOf(syn, ts) + TextOf(syn, us)
    decreases |ts|
  {
    hide TokText;
    if ts == [] {
      assert ts + us == us;
    } else {
      assert (ts + us)[1..] == ts[1..] + us;
      TextAppend(syn, ts[1..], us);
    }
  }

  lemma {:induction false} TextOne(syn: Syntax, t: Tok)
    ensures TextOf(syn, [t]) == TokText(syn, t)
  {
    hide TokText;
    assert TextOf(syn, [t][1..]) == [];
  }

  // ---- Anchors --------------------------------------------------------------------------------------------

  /** An expression that is spelt with no text matches nothing but the empty string. */
  lemma {:induction false} NoText(r: Regex)
    requires Tokens(r, 1) == []
    ensures Same(r, Empty)
    decreases r
  {
    match r
    case Empty => SameRefl(r);
    case Cat(x, y) =>
      NoText(x);
      NoText(y);
      SameCat(x, Empty, y, Empty);
      CatEmpty(Empty);
    case Leaf(_) =>
    case Alt(_, _) =>
    case Star(_) =>
    case Plus(_) =>
    case Opt(_) =>
    case Group(_, _) =>
  }

  /** `$` after an expression is the end of a line, and `^` before one the beginning. */
  lemma {:induction false} Anchors(syn: Syntax, r: Regex)
    requires Spells(syn, r)
    ensures match ParsePattern(syn, TextOf(syn, Tokens(r, 1)) + [36])
      case Ok(s) => Same(s, Cat(r, Leaf(Assert(CEOL))))
      case Err(e) => e == TooComplex
    ensures match ParsePattern(syn, [94] + TextOf(syn, Tokens(r, 1)))
      case Ok(s) => Same(s, Cat(Leaf(Assert(CBOL)), r))
      case Err(e) => e == TooComplex
  {
    hide Spells, Tokens, Same, ParsePattern, TextOf;
    var ts, sub := Tokens(r, 1), if Tokens(r, 1) == [] then [] else [Sub(r)];
    var bol, eol := Leaf(Assert(CBOL)), Leaf(Assert(CEOL));
    AnchorTokens(syn, r);
    LineReads(syn, sub + [Dollar]);
    LineReads(syn, [Caret] + sub);
    if ts == [] {
      NoText(r);
      SameRefl(bol);
      SameRefl(eol);
      CatEmpty(eol);
      CatEmpty(bol);
      SameCat(r, Empty, eol, eol);
      SameFlip(Cat(r, eol), Cat(Empty, eol));
      SameCat(bol, bol, r, Empty);
      SameTrans(Cat(bol, r), Cat(bol, Empty), bol);
      SameFlip(Cat(bol, r), bol);
      SameTrans(Cat(Empty, bol), bol, Cat(bol, r));
      SameReading(Cat(Empty, eol), Cat(r, eol));
      SameReading(Cat(Empty, bol), Cat(bol, r));
    } else {
      CatEmpty(r);
      CatEmpty(bol);
      SameRefl(r);
      SameRefl(eol);
      SameCat(Cat(Empty, r), r, eol, eol);
      SameCat(Cat(Empty, bol), bol, r, r);
      SameReading(Cat(Cat(Empty, r), eol), Cat(r, eol));
      SameReading(Cat(Cat(Empty, bol), r), Cat(bol, r));
    }
  }

  lemma {:induction false} SameReading(x: Regex, y: Regex)
    requires Same(x, y)
    ensures forall s :: Same(s, x) ==> Same(s, y)
  {
    hide Same;
    forall s | Same(s, x) ensures Same(s, y) { SameTrans(s, x, y); }
  }

  lemma {:induction false} OnePiece(syn: Syntax, p: Piece, first: bool, low: bool, m: Regex)
    requires match p
      case Sub(r) => Spells(syn, r) && Tokens(r, 1) != []
      case Oper(_) => false
      case _ => true
    ensures LineOk(syn, [p], first, low) && LineTokens([p]) == PieceTokens(p)
    ensures Reading([p], first, m) == Onward([p], first, m) && (NoneLiteral([p], first) <==> p != Caret || first)
  {
    hide Spells, Tokens;
    assert [p][1..] == [];
  }

  lemma {:induction false} TwoPieces(syn: Syntax, p: Piece, q: Piece)
    requires match p
      case Sub(r) => Spells(syn, r) && Tokens(r, 1) != [] && q == Dollar
      case Caret => q.Sub? && Spells(syn, q.r) && Tokens(q.r, 1) != []
      case _ => false
    ensures LineOk(syn, [p, q], true, false) && LineTokens([p, q]) == PieceTokens(p) + PieceTokens(q)
    ensures Reading([p, q], true, Empty) == Onward([q], false, Onward([p, q], true, Empty))
    ensures NoneLiteral([p, q], true)
  {
    hide Spells, Tokens;
    assert [p, q][1..] == [q];
    OnePiece(syn, q, false, p == Caret, Onward([p, q], true, Empty));
  }

  lemma {:induction false} AnchorText(syn: Syntax, ts: seq<Tok>)
    ensures TextOf(syn, ts + [TLow(Assert(CEOL))]) == TextOf(syn, ts) + [36]
    ensures TextOf(syn, [TLow(Assert(CBOL))] + ts) == [94] + TextOf(syn, ts)
  {
    hide TextOf;
    TextAppend(syn, ts, [TLow(Assert(CEOL))]);
    TextAppend(syn, [TLow(Assert(CBOL))], ts);
    TextOne(syn, TLow(Assert(CEOL)));
    TextOne(syn, TLow(Assert(CBOL)));
  }

  lemma {:induction false} AnchorTokens(syn: Syntax, r: Regex)
    requires Spells(syn, r)
    ensures var ts, sub := Tokens(r, 1), if Tokens(r, 1) == [] then [] else [Sub(r)];
      && LineOk(syn, sub + [Dollar], true, false) && LineOk(syn, [Caret] + sub, true, false)
      && NoneLiteral(sub + [Dollar], true) && NoneLiteral([Caret] + sub, true)
      && TextOf(syn, LineTokens(sub + [Dollar])) == TextOf(syn, ts) + [36]
      && TextOf(syn, LineTokens([Caret] + sub)) == [94] + TextOf(syn, ts)
      && Reading(sub + [Dollar], true, Empty)
           == Cat(if ts == [] then Empty else Cat(Empty, r), Leaf(Assert(CEOL)))
      && Reading([Caret] + sub, true, Empty)
           == (if ts == [] then Cat(Empty, Leaf(Assert(CBOL))) else Cat(Cat(Empty, Leaf(Assert(CBOL))), r))
  {
    hide Spells, Tokens, LineOk, NoneLiteral, Reading, LineTokens, TextOf, AtomText;
    var ts := Tokens(r, 1);
    AnchorText(syn, ts);
    if ts == [] {
      OnePiece(syn, Dollar, true, false, Empty);
      OnePiece(syn, Caret, true, false, Empty);
      assert [] + [Dollar] == [Dollar] && [Caret] + [] == [Caret];
      assert ts + [TLow(Assert(CEOL))] == [TLow(Assert(CEOL))] && [TLow(Assert(CBOL))] + ts == [TLow(Assert(CBOL))];
    } else {
      TwoPieces(syn, Sub(r), Dollar);
      TwoPieces(syn, Caret, Sub(r));
      assert [Sub(r)] + [Dollar] == [Sub(r), Dollar] && [Caret] + [Sub(r)] == [Caret, Sub(r)];
    }
  }

  // ---- Alternatives ---------------------------------------------------------------------------------------

  function LinesTokens(ls: seq<seq<Piece>>): seq<Tok>
    requires ls != []
  {
    if |ls| == 1 then LineTokens(ls[0]) else LineTokens(ls[0]) + ([TOr] + LinesTokens(ls[1..]))
  }

  function LinesReading(ls: seq<seq<Piece>>): Regex
    requires ls != []
  {
    var r := Reading(ls[0], true, Empty);
    if |ls| == 1 then r else Alt(r, LinesReading(ls[1..]))
  }

  predicate LinesOk(syn: Syntax, ls: seq<seq<Piece>>) {
    forall ps <- ls :: LineOk(syn, ps, true, false)
  }

  predicate NoLiterals(ls: seq<seq<Piece>>) {
    forall ps <- ls :: NoneLiteral(ps, true)
  }

  lemma {:induction false} LinesWritten(syn: Syntax, ls: seq<seq<Piece>>)
    requires ls != [] && LinesOk(syn, ls)
    ensures AllWritten(syn, LinesTokens(ls))
    decreases |ls|
  {
    hide LineOk, LineTokens;
    assert ls[0] in ls;
    LineWritten(syn, ls[0], true, false);
    if |ls| > 1 {
      assert forall ps <- ls[1..] :: ps in ls;
      LinesWritten(syn, ls[1..]);
    }
  }

  ghost predicate LinesRead(syn: Syntax, ls: seq<seq<Piece>>, alts: seq<Regex>, res: Result<Regex>)
    requires ls != []
  {
    match res
    case Ok(s) => Same(s, AltOf(alts, LinesReading(ls))) && (syn.contextIndepOps ==> NoLiterals(ls))
    case Err(e) => e == TooComplex || (e == OpError && syn.contextIndepOps && !NoLiterals(ls))
  }

  /** A frame in which alternatives are being read, at the beginning of one. */
  ghost predicate Fresh(st: Parse) {
    st.outer == [] && st.top.done == Empty && Same(Cat(st.top.cat, st.top.last), Empty)
  }

  lemma {:induction false} LinesOn(syn: Syntax, ls: seq<seq<Piece>>, begins: bool, st: Parse)
    requires ls != [] && LinesOk(syn, ls) && !syn.tightVbar && Fresh(st) && begins
    ensures LinesRead(syn, ls, st.top.alts, ReadOn(syn, LinesTokens(ls), begins, st))
    decreases |ls|
  {
    hide LineOk, LineTokens, Reading, NoneLiteral, ReadOn, Same, AltOf;
    var ps, tail, m := ls[0], ls[1..], Reading(ls[0], true, Empty);
    assert ps in ls;
    assert forall qs <- tail :: qs in ls;
    assert forall qs <- ls :: qs == ps || qs in tail;
    var us := if |ls| == 1 then [] else [TOr] + LinesTokens(tail);
    assert LinesTokens(ls) == LineTokens(ps) + us;
    var res := LineOn(syn, ps, true, false, us, st, st.top, Empty);
    if res.Ok? {
      var f := res.value.top;
      if |ls| == 1 {
        ReadDone(syn, ps == [], res.value);
        LastLine(f, m);
      } else {
        OrOn(syn, LinesTokens(tail), ps == [], res.value);
        if ApplyAll(false, res.value, [TOr]).Ok? {
          var st2 := ApplyAll(false, res.value, [TOr]).value;
          CatEmpty(Empty);
          LinesOn(syn, tail, true, st2);
          NextLine(f.alts, Cat(f.cat, f.last), m, LinesReading(tail));
        }
      }
    }
  }

  lemma {:induction false} LastLine(f: Frame, m: Regex)
    requires f.done == Empty && Same(Cat(f.cat, f.last), m)
    ensures Same(Whole(f), AltOf(f.alts, m))
  {
    hide Same, AltOf;
    var w := AltOf(f.alts, Cat(f.cat, f.last));
    SameAlternatives(f.alts, Cat(f.cat, f.last), m);
    CatEmpty(w);
    SameTrans(Cat(Empty, w), w, AltOf(f.alts, m));
  }

  lemma {:induction false} NextLine(alts: seq<Regex>, c: Regex, m: Regex, n: Regex)
    requires Same(c, m)
    ensures forall s :: Same(s, AltOf(alts + [c], n)) ==> Same(s, AltOf(alts, Alt(m, n)))
  {
    hide Same, AltOf;
    OneMoreAlternative(alts, c, n);
    SameRefl(n);
    SameAlt(c, m, n, n);
    SameAlternatives(alts, Alt(c, n), Alt(m, n));
    SameReading(AltOf(alts, Alt(c, n)), AltOf(alts, Alt(m, n)));
  }

  lemma {:induction false} OrOn(syn: Syntax, us: seq<Tok>, begins: bool, st: Parse)
    ensures var res := ApplyAll(syn.tightVbar, st, [TOr]);
      && ReadOn(syn, [TOr] + us, begins, st) ==
           (match res case Err(e) => Err(e) case Ok(st') => ReadOn(syn, us, true, st'))
      && match res
         case Err(e) => e == TooComplex
         case Ok(st') =>
           && st'.outer == st.outer
           && st'.top == Frame(st.top.done, st.top.alts + [Cat(st.top.cat, st.top.last)], Empty, Empty)
  {
    hide ReadOn;
    ReadFirst(syn, TOr, us, begins, st);
    OrApplied(syn.tightVbar, st);
  }

  /** Where anchors bind more tightly than alternatives, lines separated by `|` read as alternatives, in each
      of which `^` and `$` have their meaning at its own beginning and end. */
  lemma {:induction false} LooseAlternatives(syn: Syntax, ls: seq<seq<Piece>>)
    requires ls != [] && LinesOk(syn, ls) && !syn.tightVbar
    ensures match ParsePattern(syn, TextOf(syn, LinesTokens(ls)))
      case Ok(s) => Same(s, LinesReading(ls)) && (syn.contextIndepOps ==> NoLiterals(ls))
      case Err(e) => e == TooComplex || (e == OpError && syn.contextIndepOps && !NoLiterals(ls))
  {
    hide LinesTokens, LinesReading, LinesOk, NoLiterals, ReadOn, ParseFrom, TextOf, Same, AllWritten;
    var ts, st := LinesTokens(ls), Parse([], NO_FRAME, 1);
    LinesWritten(syn, ls);
    ReadsOn(syn, TextOf(syn, ts), 0, ts, true, st);
    CatEmpty(Empty);
    LinesOn(syn, ls, true, st);
  }

  lemma {:induction false} TightLow(st: Parse, m: Regex, a: Atom)
    requires Same(Whole(st.top), m)
    ensures var res := Apply(true, st, TLow(a));
      && res.Ok? && res.value.outer == st.outer && Same(Whole(res.value.top), Cat(m, Leaf(a)))
      && Same(res.value.top.done, Cat(m, Leaf(a))) && res.value.top == Frame(res.value.top.done, [], Empty, Empty)
  {
    hide Same;
    var w, l := Whole(st.top), Leaf(a);
    SameRefl(l);
    SameCat(w, m, l, l);
    CatEmpty(Empty);
    SameRefl(Cat(w, l));
    SameCat(Cat(w, l), Cat(w, l), Cat(Empty, Empty), Empty);
    CatEmpty(Cat(w, l));
    var v := Cat(Cat(w, l), Cat(Empty, Empty));
    SameTrans(v, Cat(Cat(w, l), Empty), Cat(w, l));
    SameTrans(v, Cat(w, l), Cat(m, l));
  }

  /** An expression read after something finished. */
  lemma {:induction false} AfterDone(f: Frame, g: Frame, m: Regex, r: Regex)
    requires f == Frame(f.done, [], Empty, Empty) && Same(f.done, m) && Grown(0, r, f, g)
    ensures Same(Whole(g), Cat(m, r))
  {
    hide Same;
    CatEmpty(Empty);
    SameCat(f.done, m, AltOf(g.alts, Cat(g.cat, g.last)), r);
  }

  lemma {:induction false} AroundText(syn: Syntax, ts: seq<Tok>)
    requires AllWritten(syn, ts)
    ensures var all := [TLow(Assert(CBOL))] + (ts + [TLow(Assert(CEOL))]);
      AllWritten(syn, all) && TextOf(syn, all) == [94] + TextOf(syn, ts) + [36]
  {
    hide TextOf;
    var b, e := TLow(Assert(CBOL)), TLow(Assert(CEOL));
    TextAppend(syn, [b], ts + [e]);
    TextAppend(syn, ts, [e]);
    TextOne(syn, b);
    TextOne(syn, e);
  }

  /** Where alternatives bind more tightly, the anchors around them apply to all of them. */
  lemma {:induction false} TightAlternatives(syn: Syntax, r: Regex)
    requires Spells(syn, r) && syn.tightVbar
    ensures match ParsePattern(syn, [94] + TextOf(syn, Tokens(r, 0)) + [36])
      case Ok(s) => Same(s, Cat(Cat(Leaf(Assert(CBOL)), r), Leaf(Assert(CEOL))))
      case Err(e) => e == TooComplex
  {
    hide Spells, Tokens, ParseFrom, TextOf, Same, AllWritten, ReadOn, AllInPlace, Apply, ApplyAll, Grown;
    var bol, b, e := Leaf(Assert(CBOL)), TLow(Assert(CBOL)), TLow(Assert(CEOL));
    var ts, st := Tokens(r, 0), Parse([], NO_FRAME, 1);
    var all := [b] + (ts + [e]);
    TokensWritten(syn, r, 0);
    AroundText(syn, ts);
    ReadsOn(syn, TextOf(syn, all), 0, all, true, st);
    ReadFirst(syn, b, ts + [e], true, st);
    CatEmpty(Empty);
    FrameSame(NO_FRAME, Empty);
    TightLow(st, Empty, Assert(CBOL));
    CatEmpty(bol);
    var st1 := Apply(true, st, b).value;
    SameTrans(st1.top.done, Cat(Empty, bol), bol);
    ReadPrefix(syn, ts, [e], false, st1);
    ReadsTokens(true, r, 0, st1);
    var res := ApplyAll(true, st1, ts);
    if res.Ok? {
      AfterDone(st1.top, res.value.top, bol, r);
      assert [e] + [] == [e];
      ReadFirst(syn, e, [], After(ts, false), res.value);
      TightLow(res.value, Cat(bol, r), Assert(CEOL));
      ReadDone(syn, false, Apply(true, res.value, e).value);
    }
  }
}
