/** How tokens read where they stand: operators with nothing before them, `^` and `$` inside a line,
    parentheses that do not match. Any tokens in any order make a pattern here, not only those that
    spell an expression. */
module RegexReading {
  import opened RegexCode
  import opened RegexAst
  import opened RegexSyntax
  import opened RegexNotation
  import opened RegexSpelling

  /** A token as it is spelt. `^` and `$` are spelt as tests. */
  predicate Written(syn: Syntax, t: Tok) {
    match t
    case TAtom(a) => AtomSpells(syn, a) && !IsLineTest(a)
    case TLow(a) => IsLineTest(a)
    case _ => true
  }

  predicate AllWritten(syn: Syntax, ts: seq<Tok>) {
    forall t <- ts :: Written(syn, t)
  }

  /** An operator as an ordinary character, unless the syntax forbids that. */
  function AsChar(syn: Syntax, t: Tok): Result<Tok> {
    if syn.contextIndepOps then Err(OpError) else Ok(t)
  }

  /** What the first of these tokens means. A postfix operator needs an operand; `^` is a test where an
      operand could only just begin, and `$` before `|`, before `)` and at the end. */
  function InContext(syn: Syntax, ts: seq<Tok>, begins: bool): Result<Tok>
    requires ts != []
  {
    var t := ts[0];
    if t == TStar && begins then AsChar(syn, TAtom(Char(42)))
    else if t == TPlus && begins then AsChar(syn, TAtom(Char(43)))
    else if t == TOpt && begins then AsChar(syn, TAtom(Char(63)))
    else if t == TLow(Assert(CBOL)) && !begins then AsChar(syn, TLow(Char(94)))
    else if t == TLow(Assert(CEOL)) && |ts| > 1 && ts[1] != TOr && ts[1] != TClose then AsChar(syn, TLow(Char(36)))
    else Ok(t)
  }

  /** Reading tokens from a state of the parse. */
  function ReadOn(syn: Syntax, ts: seq<Tok>, begins: bool, st: Parse): Result<Regex>
    decreases |ts|
  {
    if ts == [] then if st.outer != [] then Err(ParenthesisError) else Ok(Settled(st.top, true).done)
    else
      match InContext(syn, ts, begins)
      case Err(e) => Err(e)
      case Ok(t) =>
        match Apply(syn.tightVbar, st, t)
        case Err(e) => Err(e)
        case Ok(st') => ReadOn(syn, ts[1..], BeginsAfter(ts[0]), st')
  }

  // ---- The parser on the text of tokens -------------------------------------------------------------------

  /** How a token's text begins says whether it is `|` or `)`. */
  lemma {:induction false} TextBegins(syn: Syntax, t: Tok)
    requires Written(syn, t)
    ensures var w := TokText(syn, t);
      && (w[0] == BACKSLASH ==> |w| > 1)
      && (t == TOr <==> if syn.noBkVbar then w[0] == VBAR else w[0] == BACKSLASH && w[1] == VBAR)
      && (t == TClose <==> if syn.noBkParens then w[0] == RPAREN else w[0] == BACKSLASH && w[1] == RPAREN)
  {
    hide SetText;
  }

  lemma {:induction false} EndsExactly(syn: Syntax, pat: Text, pos: nat, ts: seq<Tok>)
    requires pos <= |pat| && pat[pos..] == TextOf(syn, ts) && AllWritten(syn, ts)
    ensures EndsHere(syn, pat, pos) <==> ts == [] || ts[0] == TOr || ts[0] == TClose
  {
    hide TokText;
    if ts != [] {
      var w := TokText(syn, ts[0]);
      assert ts[0] in ts;
      TextBegins(syn, ts[0]);
      assert pat[pos..] == w + TextOf(syn, ts[1..]);
      assert pat[pos] == w[0];
      if |w| > 1 { assert pat[pos + 1] == pat[pos..][1] == w[1]; }
    }
  }

  lemma {:induction false} FirstText(syn: Syntax, pat: Text, pos: nat, ts: seq<Tok>)
    requires ts != [] && pos <= |pat| && pat[pos..] == TextOf(syn, ts)
    ensures var w := TokText(syn, ts[0]);
      pos + |w| <= |pat| && At(pat, pos + 1, w) && pat[pos + |w|..] == TextOf(syn, ts[1..])
  {
    hide TokText;
    var w := TokText(syn, ts[0]);
    assert pat[pos..] == w + TextOf(syn, ts[1..]);
    assert pat[pos..][..|w|] == w && pat[pos..][|w|..] == TextOf(syn, ts[1..]);
    assert pat[pos..pos + |w|] == w;
  }

  lemma {:induction false} LexInContext(syn: Syntax, pat: Text, pos: nat, ts: seq<Tok>, begins: bool)
    requires ts != [] && pos <= |pat| && pat[pos..] == TextOf(syn, ts) && AllWritten(syn, ts)
    ensures pos < |pat| && Lex(syn, pat, pos, begins) ==
      match InContext(syn, ts, begins)
      case Err(e) => Err(e)
      case Ok(t) => Ok(Lexed(t, pos + |TokText(syn, ts[0])|))
  {
    hide At, Lex, LexSet, AtomSpells, EndsHere, SetText, LexOp, TextOf;
    var t := ts[0];
    assert t in ts;
    FirstText(syn, pat, pos, ts);
    var next := pos + |TokText(syn, t)|;
    assert forall u <- ts[1..] :: u in ts;
    EndsExactly(syn, pat, next, ts[1..]);
    if InContext(syn, ts, begins) == Ok(t) {
      LineTestSize(syn, t);
      LexToken(syn, pat, pos, t, begins);
    } else {
      LexAsChar(syn, pat, pos, t, begins);
    }
  }

  lemma {:induction false} LexAsChar(syn: Syntax, pat: Text, pos: nat, t: Tok, begins: bool)
    requires At(pat, pos + 1, TokText(syn, t))
    requires match t
      case TStar => begins
      case TPlus => begins
      case TOpt => begins
      case TLow(a) => (a == Assert(CBOL) && !begins) || (a == Assert(CEOL) && !EndsHere(syn, pat, pos + 1))
      case _ => false
    ensures Lex(syn, pat, pos, begins) ==
      if syn.contextIndepOps then Err(OpError)
      else
        var u := match t case TStar => TAtom(Char(42)) case TPlus => TAtom(Char(43)) case TOpt => TAtom(Char(63))
                 case TLow(a) => TLow(Char(if a == Assert(CBOL) then 94 else 36)) case _ => t;
        Ok(Lexed(u, pos + |TokText(syn, t)|))
  {
    hide At, Lex, EndsHere;
    match t
    case TStar => LexPlain(syn, pat, pos, STAR, begins);
    case TOpt => LexEither(syn, pat, pos, !syn.bkPlusQm, QUERY, begins);
    case TPlus => LexEither(syn, pat, pos, !syn.bkPlusQm, PLUS, begins);
    case TLow(a) => LexPlain(syn, pat, pos, TokText(syn, t)[0], begins);
  }

  /** On the text of any tokens, the parser does what the tokens say where they stand. */
  lemma {:induction false} ReadsOn(syn: Syntax, pat: Text, pos: nat, ts: seq<Tok>, begins: bool, st: Parse)
    requires pos <= |pat| && pat[pos..] == TextOf(syn, ts) && AllWritten(syn, ts)
    ensures ParseFrom(syn, pat, pos, begins, st) == ReadOn(syn, ts, begins, st)
    decreases |ts|
  {
    hide Lex, Apply, TokText, Settled, InContext, Written;
    if ts != [] {
      LexInContext(syn, pat, pos, ts, begins);
      FirstText(syn, pat, pos, ts);
      match InContext(syn, ts, begins)
      case Err(_) =>
      case Ok(t) =>
        SameAfter(syn, ts, begins);
        match Apply(syn.tightVbar, st, t)
        case Err(_) =>
        case Ok(st') => ReadsOn(syn, pat, pos + |TokText(syn, ts[0])|, ts[1..], BeginsAfter(t), st');
    }
  }

  lemma {:induction false} SameAfter(syn: Syntax, ts: seq<Tok>, begins: bool)
    requires ts != [] && InContext(syn, ts, begins).Ok?
    ensures BeginsAfter(InContext(syn, ts, begins).value) == BeginsAfter(ts[0])
  {
  }

  // ---- Tokens in place ------------------------------------------------------------------------------------

  lemma {:induction false} InPlaceWritten(syn: Syntax, ts: seq<Tok>, begins: bool)
    requires AllInPlace(syn, ts, begins)
    ensures AllWritten(syn, ts)
    decreases |ts|
  {
    hide AtomSpells;
    if ts != [] {
      InPlaceWritten(syn, ts[1..], BeginsAfter(ts[0]));
      forall t <- ts ensures Written(syn, t) {
        if t != ts[0] { assert t in ts[1..]; }
      }
    }
  }

  lemma {:induction false} TokensWritten(syn: Syntax, r: Regex, level: nat)
    requires Spells(syn, r) && level <= 2
    ensures AllWritten(syn, Tokens(r, level))
    ensures forall begins :: AllInPlace(syn, Tokens(r, level), begins)
  {
    hide AllInPlace, Spells, Tokens, AllWritten;
    var ts := Tokens(r, level);
    assert ts + [] == ts;
    NothingInPlace(syn);
    forall begins ensures AllInPlace(syn, ts, begins) { TokensInPlace(syn, r, level, [], begins); }
    InPlaceWritten(syn, ts, true);
  }

  lemma {:induction false} InPlaceMeans(syn: Syntax, ts: seq<Tok>, us: seq<Tok>, begins: bool)
    requires ts != [] && InPlace(syn, ts, begins)
    ensures InContext(syn, ts + us, begins) == Ok(ts[0])
  {
    hide AtomSpells;
    assert |ts| > 1 ==> (ts + us)[1] == ts[1];
  }

  /** Tokens in place are read as themselves, whatever follows. */
  lemma {:induction false} ReadPrefix(syn: Syntax, ts: seq<Tok>, us: seq<Tok>, begins: bool, st: Parse)
    requires AllInPlace(syn, ts, begins)
    ensures ReadOn(syn, ts + us, begins, st) ==
      match ApplyAll(syn.tightVbar, st, ts)
      case Err(e) => Err(e)
      case Ok(st') => ReadOn(syn, us, After(ts, begins), st')
    decreases |ts|
  {
    hide Apply, InPlace, InContext, Settled;
    if ts == [] {
      assert ts + us == us;
    } else {
      assert (ts + us)[0] == ts[0] && (ts + us)[1..] == ts[1..] + us;
      InPlaceMeans(syn, ts, us, begins);
      match Apply(syn.tightVbar, st, ts[0])
      case Err(_) =>
      case Ok(st') => ReadPrefix(syn, ts[1..], us, BeginsAfter(ts[0]), st');
    }
  }

  lemma {:induction false} ReadFirst(syn: Syntax, t: Tok, us: seq<Tok>, begins: bool, st: Parse)
    ensures ReadOn(syn, [t] + us, begins, st) ==
      match InContext(syn, [t] + us, begins)
      case Err(e) => Err(e)
      case Ok(u) =>
        match Apply(syn.tightVbar, st, u)
        case Err(e) => Err(e)
        case Ok(st') => ReadOn(syn, us, BeginsAfter(t), st')
  {
    hide Apply, InContext;
    assert ([t] + us)[1..] == us;
  }

  /** A sequence or an operand never begins with `|` or `)`. */
  lemma {:induction false} TokensBegin(r: Regex, level: nat)
    requires level >= 1 && Tokens(r, level) != []
    ensures Tokens(r, level)[0] != TOr && Tokens(r, level)[0] != TClose
    decreases r
  {
    if level <= Prec(r) {
      match r
      case Cat(x, y) =>
        if Tokens(x, 1) != [] { TokensBegin(x, 1); } else { TokensBegin(y, 1); }
      case Star(x) => if Tokens(x, 2) != [] { TokensBegin(x, 2); }
      case Plus(x) => if Tokens(x, 2) != [] { TokensBegin(x, 2); }
      case Opt(x) => if Tokens(x, 2) != [] { TokensBegin(x, 2); }
      case Empty =>
      case Leaf(_) =>
      case Alt(_, _) =>
      case Group(_, _) =>
    }
  }

  // ---- Lines ----------------------------------------------------------------------------------------------

  /** Part of a line: an expression, a bare `^` or `$`, or a postfix operator with no operand. */
  datatype Piece = Sub(r: Regex) | Caret | Dollar | Oper(t: Tok)

  function PieceTokens(p: Piece): seq<Tok> {
    match p
    case Sub(r) => Tokens(r, 1)
    case Caret => [TLow(Assert(CBOL))]
    case Dollar => [TLow(Assert(CEOL))]
    case Oper(t) => [t]
  }

  function LineTokens(ps: seq<Piece>): seq<Tok> {
    if ps == [] then [] else PieceTokens(ps[0]) + LineTokens(ps[1..])
  }

  /** Operators stand first or after bare `^`, `$` and operators. Expressions are spelt with some text. */
  predicate LineOk(syn: Syntax, ps: seq<Piece>, first: bool, low: bool) {
    ps == [] || match ps[0]
      case Sub(r) => Spells(syn, r) && Tokens(r, 1) != [] && LineOk(syn, ps[1..], false, false)
      case Caret => LineOk(syn, ps[1..], false, true)
      case Dollar => LineOk(syn, ps[1..], false, true)
      case Oper(t) => IsPostfix(t) && (first || low) && LineOk(syn, ps[1..], false, !first)
  }

  function Sign(t: Tok): Byte {
    if t == TStar then 42 else if t == TPlus then 43 else 63
  }

  /** The first piece is an operator that is an ordinary character there. */
  predicate IsLiteral(ps: seq<Piece>, first: bool)
    requires ps != []
  {
    match ps[0]
    case Sub(_) => false
    case Caret => !first
    case Dollar => |ps| > 1
    case Oper(_) => first
  }

  /** What has matched m, then matches the first piece: `^` tests only at the beginning and `$` only at the
      end, and an operator without an operand is a character at the beginning and nothing elsewhere. */
  function Onward(ps: seq<Piece>, first: bool, m: Regex): Regex
    requires ps != []
  {
    match ps[0]
    case Sub(r) => Cat(m, r)
    case Caret => Cat(m, Leaf(if first then Assert(CBOL) else Char(94)))
    case Dollar => Cat(m, Leaf(if |ps| > 1 then Char(36) else Assert(CEOL)))
    case Oper(t) => if first then Cat(m, Leaf(Char(Sign(t)))) else m
  }

  function Reading(ps: seq<Piece>, first: bool, m: Regex): Regex {
    if ps == [] then m else Reading(ps[1..], false, Onward(ps, first, m))
  }

  predicate NoneLiteral(ps: seq<Piece>, first: bool) {
    ps == [] || (!IsLiteral(ps, first) && NoneLiteral(ps[1..], false))
  }

  /** The frame has read m, after what f0 had finished. */
  ghost predicate Agrees(tight: bool, f: Frame, f0: Frame, m: Regex) {
    if tight then f.alts == [] && Same(Whole(f), m)
    else f.done == f0.done && f.alts == f0.alts && Same(Cat(f.cat, f.last), m)
  }

  lemma {:induction false} AgreesSub(tight: bool, f: Frame, g: Frame, f0: Frame, m: Regex, r: Regex)
    requires Agrees(tight, f, f0, m) && Grown(1, r, f, g)
    ensures Agrees(tight, g, f0, Cat(m, r))
  {
    hide Same;
    var c, d := Cat(f.cat, f.last), Cat(g.cat, g.last);
    SameRefl(r);
    if tight {
      SameRefl(f.done);
      SameCat(f.done, f.done, d, Cat(c, r));
      CatAssociates(f.done, c, r);
      SameFlip(Cat(Cat(f.done, c), r), Cat(f.done, Cat(c, r)));
      SameTrans(Whole(g), Cat(f.done, Cat(c, r)), Cat(Cat(f.done, c), r));
      SameCat(Whole(f), m, r, r);
      SameTrans(Whole(g), Cat(Whole(f), r), Cat(m, r));
    } else {
      SameCat(c, m, r, r);
      SameTrans(d, Cat(c, r), Cat(m, r));
    }
  }

  lemma {:induction false} AgreesAtom(tight: bool, st: Parse, f0: Frame, m: Regex, a: Atom)
    requires Agrees(tight, st.top, f0, m)
    ensures var res := Apply(tight, st, TAtom(a));
      res.Ok? && res.value.outer == st.outer && Agrees(tight, res.value.top, f0, Cat(m, Leaf(a)))
  {
    hide Same, Agrees;
    var f := st.top;
    var g := f.(cat := Cat(f.cat, f.last), last := Leaf(a));
    SameRefl(Cat(g.cat, g.last));
    AgreesSub(tight, f, g, f0, m, Leaf(a));
  }

  lemma {:induction false} AgreesLow(tight: bool, st: Parse, f0: Frame, m: Regex, a: Atom)
    requires Agrees(tight, st.top, f0, m)
    ensures var res := Apply(tight, st, TLow(a));
      && res.Ok? && res.value.outer == st.outer && Agrees(tight, res.value.top, f0, Cat(m, Leaf(a)))
      && res.value.top.last == Empty
  {
    hide Same;
    var f, l := st.top, Leaf(a);
    var g := Apply(tight, st, TLow(a)).value.top;
    SameRefl(l);
    if tight {
      var w := Cat(Whole(f), l);
      SameCat(Whole(f), m, l, l);
      CatEmpty(Empty);
      SameRefl(w);
      SameCat(w, w, Cat(Empty, Empty), Empty);
      CatEmpty(w);
      SameTrans(Whole(g), Cat(w, Empty), w);
      SameTrans(Whole(g), w, Cat(m, l));
    } else {
      var c := Cat(Cat(f.cat, f.last), l);
      SameCat(Cat(f.cat, f.last), m, l, l);
      CatEmpty(c);
      SameTrans(Cat(g.cat, g.last), c, Cat(m, l));
    }
  }

  lemma {:induction false} IgnoredPostfix(tight: bool, st: Parse, t: Tok)
    requires IsPostfix(t) && st.top.last == Empty
    ensures Apply(tight, st, t) == Ok(st)
  {
  }

  /** What follows a line. */
  predicate LineEnds(us: seq<Tok>) {
    us == [] || us[0] == TOr || us[0] == TClose
  }

  lemma {:induction false} LineBegins(syn: Syntax, ps: seq<Piece>, first: bool, low: bool, us: seq<Tok>)
    requires LineOk(syn, ps, first, low) && ps != [] && !first
    ensures LineTokens(ps) != [] && LineTokens(ps)[0] != TOr && LineTokens(ps)[0] != TClose
  {
    hide Tokens, Spells;
    if ps[0].Sub? { TokensBegin(ps[0].r, 1); }
  }

  /** How the reading of a line goes: it exceeds the nesting limits, or comes upon an operator that would be
      an ordinary character where the syntax forbids that, or adds what the line matches. */
  ghost predicate LineRead(syn: Syntax, ps: seq<Piece>, first: bool, st: Parse, f0: Frame, m: Regex,
                           res: Result<Parse>) {
    match res
    case Err(e) => e == TooComplex || (e == OpError && syn.contextIndepOps && !NoneLiteral(ps, first))
    case Ok(st') =>
      && st'.outer == st.outer && Agrees(syn.tightVbar, st'.top, f0, Reading(ps, first, m))
      && (syn.contextIndepOps ==> NoneLiteral(ps, first))
  }

  /** The operand a postfix operator would apply to is empty after this piece. */
  predicate LowAfter(p: Piece, first: bool) {
    p.Caret? || p.Dollar? || (p.Oper? && !first)
  }

  ghost predicate PieceRead(syn: Syntax, ps: seq<Piece>, first: bool, st: Parse, f0: Frame, m: Regex,
                            res: Result<Parse>)
    requires ps != []
  {
    match res
    case Err(e) => e == TooComplex || (e == OpError && syn.contextIndepOps && IsLiteral(ps, first))
    case Ok(st') =>
      && st'.outer == st.outer && Agrees(syn.tightVbar, st'.top, f0, Onward(ps, first, m))
      && (syn.contextIndepOps ==> !IsLiteral(ps, first)) && (LowAfter(ps[0], first) ==> st'.top.last == Empty)
  }

  lemma {:induction false} SubOn(syn: Syntax, r: Regex, vs: seq<Tok>, begins: bool, st: Parse, f0: Frame, m: Regex)
    requires Spells(syn, r) && Tokens(r, 1) != [] && Agrees(syn.tightVbar, st.top, f0, m)
    ensures var res := ApplyAll(syn.tightVbar, st, Tokens(r, 1));
      && ReadOn(syn, Tokens(r, 1) + vs, begins, st) ==
           (match res case Err(e) => Err(e) case Ok(st') => ReadOn(syn, vs, false, st'))
      && match res
         case Err(e) => e == TooComplex
         case Ok(st') => st'.outer == st.outer && Agrees(syn.tightVbar, st'.top, f0, Cat(m, r))
  {
    hide Agrees, ReadOn, Tokens, Spells, ApplyAll, AllInPlace, Grown;
    TokensWritten(syn, r, 1);
    ReadPrefix(syn, Tokens(r, 1), vs, begins, st);
    TokensEnd(r, 1);
    ReadsTokens(syn.tightVbar, r, 1, st);
    var res := ApplyAll(syn.tightVbar, st, Tokens(r, 1));
    if res.Ok? { AgreesSub(syn.tightVbar, st.top, res.value.top, f0, m, r); }
  }

  /** A sequence or an operand never ends with `|` or `(`. */
  lemma {:induction false} TokensEnd(r: Regex, level: nat)
    requires level >= 1 && Tokens(r, level) != []
    ensures !BeginsAfter(Tokens(r, level)[|Tokens(r, level)| - 1])
    decreases r
  {
    if level <= Prec(r) && r.Cat? {
      if Tokens(r.right, 1) != [] { TokensEnd(r.right, 1); } else { TokensEnd(r.left, 1); }
    }
  }

  /** After a bare `$` comes the end of the line, or else neither `|` nor `)`. */
  lemma {:induction false} DollarEnds(syn: Syntax, ps: seq<Piece>, first: bool, low: bool, us: seq<Tok>)
    requires ps != [] && ps[0] == Dollar && LineOk(syn, ps, first, low) && LineEnds(us)
    ensures var vs := LineTokens(ps[1..]) + us;
      (vs == [] || vs[0] == TOr || vs[0] == TClose) <==> |ps| == 1
  {
    hide Tokens, Spells;
    if |ps| > 1 { LineBegins(syn, ps[1..], false, true, us); }
  }

  /** A test or, out of its place, a character at the same precedence. */
  lemma {:induction false} LowOn(syn: Syntax, t: Tok, vs: seq<Tok>, first: bool, st: Parse, f0: Frame, m: Regex,
                                 literal: bool, a: Atom) returns (res: Result<Parse>)
    requires InContext(syn, [t] + vs, first) == (if literal then AsChar(syn, TLow(a)) else Ok(TLow(a)))
    requires t.TLow? && Agrees(syn.tightVbar, st.top, f0, m)
    ensures ReadOn(syn, [t] + vs, first, st) ==
      match res case Err(e) => Err(e) case Ok(st') => ReadOn(syn, vs, false, st')
    ensures match res
      case Err(e) => e == OpError && syn.contextIndepOps && literal
      case Ok(st') =>
        && st'.outer == st.outer && Agrees(syn.tightVbar, st'.top, f0, Cat(m, Leaf(a)))
        && !(syn.contextIndepOps && literal) && st'.top.last == Empty
  {
    hide Agrees, ReadOn, Apply, InContext;
    ReadFirst(syn, t, vs, first, st);
    AgreesLow(syn.tightVbar, st, f0, m, a);
    res := if literal && syn.contextIndepOps then Err(OpError) else Apply(syn.tightVbar, st, TLow(a));
  }

  lemma {:induction false} OperOn(syn: Syntax, t: Tok, vs: seq<Tok>, first: bool, st: Parse, f0: Frame, m: Regex)
    returns (res: Result<Parse>)
    requires IsPostfix(t) && (first || st.top.last == Empty) && Agrees(syn.tightVbar, st.top, f0, m)
    ensures ReadOn(syn, [t] + vs, first, st) ==
      match res case Err(e) => Err(e) case Ok(st') => ReadOn(syn, vs, false, st')
    ensures match res
      case Err(e) => e == OpError && syn.contextIndepOps && first
      case Ok(st') =>
        && st'.outer == st.outer && !(syn.contextIndepOps && first) && (!first ==> st'.top.last == Empty)
        && Agrees(syn.tightVbar, st'.top, f0, if first then Cat(m, Leaf(Char(Sign(t)))) else m)
  {
    hide Agrees, ReadOn, Apply;
    ReadFirst(syn, t, vs, first, st);
    if first {
      AgreesAtom(syn.tightVbar, st, f0, m, Char(Sign(t)));
      res := if syn.contextIndepOps then Err(OpError) else Apply(syn.tightVbar, st, TAtom(Char(Sign(t))));
    } else {
      IgnoredPostfix(syn.tightVbar, st, t);
      res := Ok(st);
    }
  }

  lemma {:induction false} PieceOn(syn: Syntax, ps: seq<Piece>, first: bool, low: bool, us: seq<Tok>, st: Parse,
                                   f0: Frame, m: Regex) returns (res: Result<Parse>)
    requires ps != [] && LineOk(syn, ps, first, low) && LineEnds(us) && (low ==> st.top.last == Empty)
    requires Agrees(syn.tightVbar, st.top, f0, m)
    ensures var vs := LineTokens(ps[1..]) + us;
      ReadOn(syn, PieceTokens(ps[0]) + vs, first, st) ==
        match res case Err(e) => Err(e) case Ok(st') => ReadOn(syn, vs, false, st')
    ensures PieceRead(syn, ps, first, st, f0, m, res)
  {
    hide Agrees, ReadOn, Tokens, Spells, ApplyAll, LineTokens, LineEnds;
    var vs := LineTokens(ps[1..]) + us;
    match ps[0] {
      case Sub(r) =>
        SubOn(syn, r, vs, first, st, f0, m);
        res := ApplyAll(syn.tightVbar, st, Tokens(r, 1));
      case Caret =>
        res := LowOn(syn, TLow(Assert(CBOL)), vs, first, st, f0, m, !first, if first then Assert(CBOL) else Char(94));
      case Dollar =>
        DollarEnds(syn, ps, first, low, us);
        res := LowOn(syn, TLow(Assert(CEOL)), vs, first, st, f0, m, |ps| > 1,
                     if |ps| > 1 then Char(36) else Assert(CEOL));
      case Oper(t) => res := OperOn(syn, t, vs, first, st, f0, m);
    }
  }

  lemma {:induction false} LineOn(syn: Syntax, ps: seq<Piece>, first: bool, low: bool, us: seq<Tok>, st: Parse,
                                  f0: Frame, m: Regex) returns (res: Result<Parse>)
    requires LineOk(syn, ps, first, low) && LineEnds(us) && (low ==> st.top.last == Empty)
    requires Agrees(syn.tightVbar, st.top, f0, m)
    ensures ReadOn(syn, LineTokens(ps) + us, first, st) ==
      match res case Err(e) => Err(e) case Ok(st') => ReadOn(syn, us, first && ps == [], st')
    ensures LineRead(syn, ps, first, st, f0, m, res)
    decreases |ps|
  {
    hide Agrees, ReadOn, Tokens, Spells, Apply, InContext, AllInPlace, ApplyAll;
    if ps == [] {
      assert LineTokens(ps) + us == us;
      return Ok(st);
    }
    var vs := LineTokens(ps[1..]) + us;
    assert LineTokens(ps) + us == PieceTokens(ps[0]) + vs;
    var step := PieceOn(syn, ps, first, low, us, st, f0, m);
    match step {
      case Err(e) => return Err(e);
      case Ok(st1) =>
        res := LineOn(syn, ps[1..], false, LowAfter(ps[0], first), us, st1, f0, Onward(ps, first, m));
    }
  }

  lemma {:induction false} LineWritten(syn: Syntax, ps: seq<Piece>, first: bool, low: bool)
    requires LineOk(syn, ps, first, low)
    ensures AllWritten(syn, LineTokens(ps))
    decreases |ps|
  {
    hide Spells, Tokens, AtomSpells;
    if ps != [] {
      if ps[0].Sub? { TokensWritten(syn, ps[0].r, 1); }
      LineWritten(syn, ps[1..], false, LowAfter(ps[0], first));
    }
  }

  /** The text of a line reads, under every syntax, as an expression that matches what its pieces match one
      after the other, unless it exceeds the nesting limits. Operators out of place are errors exactly if
      the syntax says so. */
  lemma {:induction false} LineReads(syn: Syntax, ps: seq<Piece>)
    requires LineOk(syn, ps, true, false)
    ensures match ParsePattern(syn, TextOf(syn, LineTokens(ps)))
      case Ok(s) => Same(s, Reading(ps, true, Empty)) && (syn.contextIndepOps ==> NoneLiteral(ps, true))
      case Err(e) => e == TooComplex || (e == OpError && syn.contextIndepOps && !NoneLiteral(ps, true))
  {
    hide LineOk, LineTokens, Reading, NoneLiteral, AllWritten, ReadOn, ParseFrom, TextOf, Same;
    var ts, st := LineTokens(ps), Parse([], NO_FRAME, 1);
    LineWritten(syn, ps, true, false);
    ReadsOn(syn, TextOf(syn, ts), 0, ts, true, st);
    CatEmpty(Empty);
    FrameSame(NO_FRAME, Empty);
    assert ts + [] == ts;
    var res := LineOn(syn, ps, true, false, [], st, NO_FRAME, Empty);
    if res.Ok? {
      if !syn.tightVbar { FrameSame(res.value.top, Reading(ps, true, Empty)); }
      ReadDone(syn, ps == [], res.value);
    }
  }

  lemma {:induction false} FrameSame(f: Frame, m: Regex)
    requires f.done == Empty && f.alts == [] && Same(Cat(f.cat, f.last), m)
    ensures Same(Whole(f), m)
  {
    hide Same;
    CatEmpty(Cat(f.cat, f.last));
    SameTrans(Whole(f), Cat(f.cat, f.last), m);
  }

  lemma {:induction false} ReadDone(syn: Syntax, begins: bool, st: Parse)
    requires st.outer == []
    ensures ReadOn(syn, [], begins, st) == Ok(Whole(st.top))
  {
  }
}
