/** Spelling the tokens of an expression as pattern text, under any syntax, and reading them back. */
module RegexSpelling {
  import opened RegexCode
  import opened RegexAst
  import opened RegexSyntax
  import opened RegexNotation

  const LBRACKET: Byte := 91
  const DOT: Byte := 46
  const STAR: Byte := 42
  const PLUS: Byte := 43
  const QUERY: Byte := 63
  const DOLLAR: Byte := 36

  // ---- Sets ------------------------------------------------------------------------------------------

  /** The members from c on, each as a range of one character. */
  function Ranges(m: set<Byte>, c: nat): Text
    decreases 256 - c
  {
    if c >= 256 then []
    else (if c in m && c != RBRACKET && c != DASH then [c, DASH, c] else []) + Ranges(m, c + 1)
  }

  /** A closing bracket comes first and a dash last. */
  function Members(m: set<Byte>): Text {
    (if RBRACKET in m then [RBRACKET] else []) + Ranges(m, 0) + (if DASH in m then [DASH] else []) + [RBRACKET]
  }

  /** What is written after the opening bracket: the complement, which has a member unless the set
      has them all. */
  function SetText(m: set<Byte>): Text {
    if m == AllBytes() then Members(m) else [CARET] + Members(AllBytes() - m)
  }

  /** The members from c on that are written as ranges. */
  function RangeSet(m: set<Byte>, c: nat): (r: set<Byte>) {
    set b | b in m && b >= c && b != RBRACKET && b != DASH
  }

  /** The text from one before pos on. */
  predicate At(pat: Text, pos: nat, t: Text) {
    1 <= pos <= |pat| && pos - 1 + |t| <= |pat| && pat[pos - 1..pos - 1 + |t|] == t
  }

  lemma {:induction false} AtSplit(pat: Text, pos: nat, x: Text, y: Text)
    requires At(pat, pos, x + y) && y != []
    ensures At(pat, pos + |x|, y) && (x != [] ==> At(pat, pos, x))
  {
    assert (x + y)[..|x|] == x && (x + y)[|x|..] == y;
    assert pat[pos - 1..pos - 1 + |x|] == pat[pos - 1..pos - 1 + |x + y|][..|x|];
    assert pat[pos - 1 + |x|..pos - 1 + |x + y|] == pat[pos - 1..pos - 1 + |x + y|][|x|..];
  }

  lemma {:induction false} AtPrefix(pat: Text, pos: nat, x: Text, y: Text)
    requires At(pat, pos, x + y)
    ensures At(pat, pos, x)
  {
    assert (x + y)[..|x|] == x;
    assert pat[pos - 1..pos - 1 + |x|] == pat[pos - 1..pos - 1 + |x + y|][..|x|];
  }

  lemma {:induction false} AtChar(pat: Text, pos: nat, t: Text, k: nat)
    requires At(pat, pos, t) && k < |t|
    ensures pos - 1 + k < |pat| && pat[pos - 1 + k] == t[k]
  {
  }

  function SetTail(m: set<Byte>): Text {
    (if DASH in m then [DASH] else []) + [RBRACKET]
  }

  /** One member as a range, then whatever follows. */
  lemma {:induction false} ReadRange(pat: Text, pos: nat, c: Byte, prev: int, first: bool, acc: set<Byte>, rest: Text)
    requires At(pat, pos, [c, DASH, c] + rest) && rest != [] && c != RBRACKET && c != DASH && -1 <= prev
    ensures At(pat, pos + 3, rest)
    ensures SetFrom(pat, pos, pat[pos - 1], prev, false, first, acc)
      == SetFrom(pat, pos + 3, pat[pos + 2], -1, false, false, acc + {c})
  {
    var t := [c, DASH, c] + rest;
    AtSplit(pat, pos, [c, DASH, c], rest);
    AtChar(pat, pos, t, 0);
    AtChar(pat, pos, t, 1);
    AtChar(pat, pos, t, 2);
    assert acc + {c} + Between(c, c) == acc + {c};
    assert SetFrom(pat, pos, pat[pos - 1], prev, false, first, acc)
      == SetFrom(pat, pos + 1, DASH, c, false, false, acc + {c});
    assert SetFrom(pat, pos + 1, DASH, c, false, false, acc + {c})
      == SetFrom(pat, pos + 2, c, c, true, false, acc + {c});
    assert SetFrom(pat, pos + 2, c, c, true, false, acc + {c})
      == SetFrom(pat, pos + 3, pat[pos + 2], -1, false, false, acc + {c});
  }

  lemma {:induction false} ReadTail(pat: Text, pos: nat, m: set<Byte>, prev: int, first: bool, acc: set<Byte>)
    requires At(pat, pos, SetTail(m)) && -1 <= prev && (DASH in m || !first)
    ensures SetFrom(pat, pos, pat[pos - 1], prev, false, first, acc)
      == Ok((if DASH in m then acc + {DASH} else acc, pos - 1 + |SetTail(m)|))
  {
    AtChar(pat, pos, SetTail(m), 0);
    if DASH in m { AtChar(pat, pos, SetTail(m), 1); }
  }

  /** The members from c on are added. */
  lemma {:induction false} ReadRanges(pat: Text, pos: nat, m: set<Byte>, c: nat, prev: int, first: bool, acc: set<Byte>)
    requires At(pat, pos, Ranges(m, c) + SetTail(m)) && -1 <= prev && (first ==> DASH in m || RangeSet(m, c) != {})
    ensures var all := acc + RangeSet(m, c);
      SetFrom(pat, pos, pat[pos - 1], prev, false, first, acc)
      == Ok((if DASH in m then all + {DASH} else all, pos - 1 + |Ranges(m, c) + SetTail(m)|))
    decreases 256 - c
  {
    hide SetFrom, Ranges, RangeSet, At, SetTail;
    RangeStep(m, c);
    if c >= 256 {
      assert acc + RangeSet(m, c) == acc;
      assert Ranges(m, c) + SetTail(m) == SetTail(m);
      ReadTail(pat, pos, m, prev, first, acc);
    } else if c in m && c != RBRACKET && c != DASH {
      var rest := Ranges(m, c + 1) + SetTail(m);
      assert Ranges(m, c) + SetTail(m) == [c, DASH, c] + rest;
      assert rest != [] by { assert |SetTail(m)| > 0 by { TailSize(m); } }
      ReadRange(pat, pos, c, prev, first, acc, rest);
      ReadRanges(pat, pos + 3, m, c + 1, -1, false, acc + {c});
      assert acc + {c} + RangeSet(m, c + 1) == acc + RangeSet(m, c);
    } else {
      ReadRanges(pat, pos, m, c + 1, prev, first, acc);
    }
  }

  lemma {:induction false} TailSize(m: set<Byte>)
    ensures |SetTail(m)| > 0
  {
  }

  lemma {:induction false} RangeStep(m: set<Byte>, c: nat)
    ensures c >= 256 ==> Ranges(m, c) == [] && RangeSet(m, c) == {}
    ensures c < 256 ==>
      if c in m && c != RBRACKET && c != DASH
      then Ranges(m, c) == [c, DASH, c] + Ranges(m, c + 1) && RangeSet(m, c) == {c} + RangeSet(m, c + 1)
      else Ranges(m, c) == Ranges(m, c + 1) && RangeSet(m, c) == RangeSet(m, c + 1)
  {
    hide RangeSet, Ranges;
    RangeSetStep(m, c);
    RangesStep(m, c);
  }

  lemma {:induction false} RangesStep(m: set<Byte>, c: nat)
    ensures c >= 256 ==> Ranges(m, c) == []
    ensures c < 256 ==>
      Ranges(m, c) == (if c in m && c != RBRACKET && c != DASH then [c, DASH, c] else []) + Ranges(m, c + 1)
  {
  }

  lemma {:induction false} RangeSetStep(m: set<Byte>, c: nat)
    ensures c >= 256 ==> RangeSet(m, c) == {}
    ensures c < 256 ==>
      RangeSet(m, c) == if c in m && c != RBRACKET && c != DASH then {c} + RangeSet(m, c + 1) else RangeSet(m, c + 1)
  {
  }

  lemma {:induction false} ReadMembers(pat: Text, pos: nat, m: set<Byte>)
    requires At(pat, pos, Members(m)) && m != {}
    ensures SetFrom(pat, pos, pat[pos - 1], -1, false, true, {}) == Ok((m, pos - 1 + |Members(m)|))
  {
    hide SetFrom, Ranges;
    var inner := Ranges(m, 0) + SetTail(m);
    var all := (if RBRACKET in m then {RBRACKET} else {}) + RangeSet(m, 0);
    assert m == if DASH in m then all + {DASH} else all;
    if RBRACKET in m {
      assert Members(m) == [RBRACKET] + inner;
      AtSplit(pat, pos, [RBRACKET], inner);
      AtChar(pat, pos, Members(m), 0);
      FirstBracket(pat, pos);
      ReadRanges(pat, pos + 1, m, 0, RBRACKET, false, {RBRACKET});
    } else {
      assert Members(m) == inner;
      assert {} + RangeSet(m, 0) == all;
      ReadRanges(pat, pos, m, 0, -1, true, {});
    }
  }

  lemma {:induction false} FirstBracket(pat: Text, pos: nat)
    requires 1 <= pos < |pat| && pat[pos - 1] == RBRACKET
    ensures SetFrom(pat, pos, RBRACKET, -1, false, true, {})
      == SetFrom(pat, pos + 1, pat[pos], RBRACKET, false, false, {RBRACKET})
  {
    assert {} + {RBRACKET} == {RBRACKET};
  }

  lemma {:induction false} Missing(m: set<Byte>)
    ensures AllBytes() != {} && (m != AllBytes() ==> AllBytes() - m != {})
  {
    assert 0 in AllBytes();
    if m != AllBytes() { assert m < AllBytes(); }
  }

  lemma {:induction false} MembersBegin(m: set<Byte>)
    ensures |Members(m)| > 0 && (m == AllBytes() ==> Members(m)[0] == RBRACKET)
  {
    hide Ranges;
  }

  lemma {:induction false} Complement(m: set<Byte>)
    ensures AllBytes() - (AllBytes() - m) == m
  {
  }

  /** The first character of a spelt set that is not complemented is its closing bracket. */
  lemma {:induction false} ReadSet(pat: Text, pos: nat, m: set<Byte>)
    requires At(pat, pos + 1, SetText(m))
    ensures LexSet(pat, pos) == Ok(Lexed(TAtom(Class(m)), pos + |SetText(m)|))
  {
    hide SetFrom, Members, AllBytes, At;
    if m == AllBytes() {
      MembersBegin(m);
      AtChar(pat, pos + 1, Members(m), 0);
      Missing({});
      ReadMembers(pat, pos + 1, m);
    } else {
      var rest := AllBytes() - m;
      MembersBegin(rest);
      AtChar(pat, pos + 1, SetText(m), 0);
      AtSplit(pat, pos + 1, [CARET], Members(rest));
      AtChar(pat, pos + 2, Members(rest), 0);
      Missing(m);
      ReadMembers(pat, pos + 2, rest);
      Complement(m);
    }
  }

  // ---- Tokens -----------------------------------------------------------------------------------------

  /** A character standing for itself: quoted if it would mean something alone. */
  function CharText(syn: Syntax, c: Byte): Text {
    if PlainOp(syn, c) == Rnormal then [c] else [BACKSLASH, c]
  }

  function Quoted(plain: bool, c: Byte): Text {
    if plain then [c] else [BACKSLASH, c]
  }

  function AtomText(syn: Syntax, a: Atom): Text {
    match a
    case Char(c) => CharText(syn, c)
    case AnyChar => [DOT]
    case Class(m) => [LBRACKET] + SetText(m)
    case WordChar => [BACKSLASH, 119]
    case NotWordChar => [BACKSLASH, 87]
    case BackRef(n) => [BACKSLASH, (48 + n) % 256]
    case Assert(op) =>
      if op == CBOL then [CARET]
      else if op == CEOL then [DOLLAR]
      else if op == CBEGBUF then [BACKSLASH, 96]
      else if op == CENDBUF then [BACKSLASH, 39]
      else if op == CWORDBEG then [BACKSLASH, 60]
      else if op == CWORDEND then [BACKSLASH, 62]
      else if op == CWORDBOUND then [BACKSLASH, 98]
      else [BACKSLASH, 66]
  }

  function TokText(syn: Syntax, t: Tok): (r: Text)
    ensures r != []
  {
    match t
    case TAtom(a) => AtomText(syn, a)
    case TLow(a) => AtomText(syn, a)
    case TOpt => Quoted(!syn.bkPlusQm, QUERY)
    case TPlus => Quoted(!syn.bkPlusQm, PLUS)
    case TStar => [STAR]
    case TOr => Quoted(syn.noBkVbar, VBAR)
    case TOpen => Quoted(syn.noBkParens, LPAREN)
    case TClose => Quoted(syn.noBkParens, RPAREN)
  }

  /** Expressible under this syntax: back-references up to 9, and the extensions only where allowed. */
  predicate AtomSpells(syn: Syntax, a: Atom) {
    match a
    case BackRef(n) => 1 <= n <= 9
    case WordChar => !syn.noGnuExtensions
    case NotWordChar => !syn.noGnuExtensions
    case Assert(op) => op == CBOL || op == CEOL || !syn.noGnuExtensions
    case Char(_) => true
    case AnyChar => true
    case Class(_) => true
  }

  predicate Spells(syn: Syntax, r: Regex) {
    match r
    case Empty => true
    case Leaf(a) => AtomSpells(syn, a)
    case Cat(x, y) => Spells(syn, x) && Spells(syn, y)
    case Alt(x, y) => Spells(syn, x) && Spells(syn, y)
    case Star(x) => Spells(syn, x)
    case Plus(x) => Spells(syn, x)
    case Opt(x) => Spells(syn, x)
    case Group(_, x) => Spells(syn, x)
  }

  function TextOf(syn: Syntax, ts: seq<Tok>): Text {
    if ts == [] then [] else TokText(syn, ts[0]) + TextOf(syn, ts[1..])
  }

  /** The pattern that spells r. */
  function Show(syn: Syntax, r: Regex): Text {
    TextOf(syn, Tokens(r, 0))
  }

  /** A token in a place where it is read as itself. */
  predicate InPlace(syn: Syntax, ts: seq<Tok>, begins: bool)
    requires ts != []
  {
    match ts[0]
    case TAtom(a) => AtomSpells(syn, a) && !IsLineTest(a)
    case TLow(a) => (a == Assert(CBOL) && begins) || (a == Assert(CEOL) && |ts| > 1 && ts[1] == TClose)
    case TOpt => !begins
    case TStar => !begins
    case TPlus => !begins
    case TOr => true
    case TOpen => true
    case TClose => true
  }

  predicate AllInPlace(syn: Syntax, ts: seq<Tok>, begins: bool) {
    ts == [] || (InPlace(syn, ts, begins) && AllInPlace(syn, ts[1..], BeginsAfter(ts[0])))
  }

  /** The tokens of an expression are in place wherever an operand is, if what follows is. */
  lemma {:induction false} TokensInPlace(syn: Syntax, r: Regex, level: nat, rest: seq<Tok>, begins: bool)
    requires Spells(syn, r) && AllInPlace(syn, rest, false) && level <= 2 && (level < 2 ==> AllInPlace(syn, rest, true))
    ensures AllInPlace(syn, Tokens(r, level) + rest, begins)
    decreases r, 1
  {
    hide AllInPlace, Core;
    if level > Prec(r) { ParenInPlace(syn, r, rest, begins); }
    else { CoreInPlace(syn, r, rest, begins); }
  }

  lemma {:induction false} Cons(syn: Syntax, t: Tok, ts: seq<Tok>, begins: bool)
    requires InPlace(syn, [t] + ts, begins) && AllInPlace(syn, ts, BeginsAfter(t))
    ensures AllInPlace(syn, [t] + ts, begins)
  {
    hide InPlace;
    assert ([t] + ts)[1..] == ts;
  }

  lemma {:induction false} ParenInPlace(syn: Syntax, r: Regex, rest: seq<Tok>, begins: bool)
    requires Spells(syn, r) && AllInPlace(syn, rest, false)
    ensures AllInPlace(syn, Paren(Core(r)) + rest, begins)
    decreases r, 0, 2
  {
    hide AllInPlace, Core;
    Cons(syn, TClose, rest, false);
    Cons(syn, TClose, rest, true);
    CoreInPlace(syn, r, [TClose] + rest, true);
    Cons(syn, TOpen, Core(r) + ([TClose] + rest), begins);
    assert Paren(Core(r)) + rest == [TOpen] + (Core(r) + ([TClose] + rest));
  }

  lemma {:induction false} LeafInPlace(syn: Syntax, a: Atom, rest: seq<Tok>, begins: bool)
    requires AtomSpells(syn, a) && AllInPlace(syn, rest, false)
    ensures AllInPlace(syn, Core(Leaf(a)) + rest, begins)
  {
    hide AllInPlace;
    if IsLineTest(a) {
      Cons(syn, TClose, rest, false);
      Cons(syn, TLow(a), [TClose] + rest, true);
      Cons(syn, TOpen, [TLow(a)] + ([TClose] + rest), begins);
      assert Core(Leaf(a)) + rest == [TOpen] + ([TLow(a)] + ([TClose] + rest));
    } else {
      Cons(syn, TAtom(a), rest, begins);
    }
  }

  lemma {:induction false} PostfixInPlace(syn: Syntax, t: Tok, x: Regex, rest: seq<Tok>, begins: bool)
    requires Spells(syn, x) && AllInPlace(syn, rest, false) && (t == TStar || t == TPlus || t == TOpt)
    ensures AllInPlace(syn, Tokens(x, 2) + [t] + rest, begins)
    decreases x, 2
  {
    hide AllInPlace, Tokens, Spells;
    Cons(syn, t, rest, false);
    TokensInPlace(syn, x, 2, [t] + rest, begins);
    assert Tokens(x, 2) + [t] + rest == Tokens(x, 2) + ([t] + rest);
  }

  lemma {:induction false} AltInPlace(syn: Syntax, x: Regex, y: Regex, rest: seq<Tok>, begins: bool)
    requires Spells(syn, x) && Spells(syn, y) && AllInPlace(syn, rest, false) && AllInPlace(syn, rest, true)
    ensures AllInPlace(syn, Tokens(x, 1) + [TOr] + Tokens(y, 0) + rest, begins)
    decreases Alt(x, y), 0, 0
  {
    hide AllInPlace, Tokens, Spells;
    var after := [TOr] + (Tokens(y, 0) + rest);
    TokensInPlace(syn, y, 0, rest, true);
    Cons(syn, TOr, Tokens(y, 0) + rest, false);
    Cons(syn, TOr, Tokens(y, 0) + rest, true);
    TokensInPlace(syn, x, 1, after, begins);
    assert Tokens(x, 1) + [TOr] + Tokens(y, 0) + rest == Tokens(x, 1) + after;
  }

  lemma {:induction false} CoreInPlace(syn: Syntax, r: Regex, rest: seq<Tok>, begins: bool)
    requires Spells(syn, r) && AllInPlace(syn, rest, false) && (Prec(r) < 2 ==> AllInPlace(syn, rest, true))
    ensures AllInPlace(syn, Core(r) + rest, begins)
    decreases r, 0, 1
  {
    hide AllInPlace, Tokens, AtomSpells, IsLineTest;
    match r
    case Empty => assert [] + rest == rest;
    case Leaf(a) => LeafInPlace(syn, a, rest, begins);
    case Cat(x, y) =>
      TokensInPlace(syn, y, 1, rest, false);
      TokensInPlace(syn, y, 1, rest, true);
      TokensInPlace(syn, x, 1, Tokens(y, 1) + rest, begins);
      assert Core(r) + rest == Tokens(x, 1) + (Tokens(y, 1) + rest);
    case Alt(x, y) => AltInPlace(syn, x, y, rest, begins);
    case Star(x) => PostfixInPlace(syn, TStar, x, rest, begins);
    case Plus(x) => PostfixInPlace(syn, TPlus, x, rest, begins);
    case Opt(x) => PostfixInPlace(syn, TOpt, x, rest, begins);
    case Group(_, x) =>
      Cons(syn, TClose, rest, false);
      Cons(syn, TClose, rest, true);
      TokensInPlace(syn, x, 0, [TClose] + rest, true);
      Cons(syn, TOpen, Tokens(x, 0) + ([TClose] + rest), begins);
      assert Core(r) + rest == [TOpen] + (Tokens(x, 0) + ([TClose] + rest));
  }

  // ---- Reading the tokens back ----------------------------------------------------------------------

  lemma {:induction false} QuotedPlain(syn: Syntax, c: Byte)
    requires PlainOp(syn, c) != Rnormal
    ensures QuotedOp(syn, c) == Rnormal
  {
  }

  /** A plain character at pos, or a quoted one. */
  lemma {:induction false} LexPlain(syn: Syntax, pat: Text, pos: nat, c: Byte, begins: bool)
    requires At(pat, pos + 1, [c]) && PlainOp(syn, c) != Rquote
    ensures Lex(syn, pat, pos, begins) == LexOp(syn, pat, PlainOp(syn, c), c, pos + 1, begins)
  {
    hide PlainOp, LexOp;
    AtChar(pat, pos + 1, [c], 0);
  }

  lemma {:induction false} LexQuoted(syn: Syntax, pat: Text, pos: nat, c: Byte, begins: bool)
    requires At(pat, pos + 1, [BACKSLASH, c])
    ensures Lex(syn, pat, pos, begins) == LexOp(syn, pat, QuotedOp(syn, c), c, pos + 2, begins)
  {
    hide QuotedOp, LexOp;
    AtChar(pat, pos + 1, [BACKSLASH, c], 0);
    AtChar(pat, pos + 1, [BACKSLASH, c], 1);
  }

  lemma {:induction false} LexAtom(syn: Syntax, pat: Text, pos: nat, a: Atom, begins: bool)
    requires At(pat, pos + 1, AtomText(syn, a)) && AtomSpells(syn, a) && !IsLineTest(a)
    ensures Lex(syn, pat, pos, begins) == Ok(Lexed(TAtom(a), pos + |AtomText(syn, a)|))
  {
    hide At, Lex, LexSet, SetText, EndsHere, Literal;
    match a
    case Char(c) =>
      if PlainOp(syn, c) == Rnormal { LexPlain(syn, pat, pos, c, begins); }
      else { QuotedPlain(syn, c); LexQuoted(syn, pat, pos, c, begins); }
    case AnyChar => LexPlain(syn, pat, pos, DOT, begins);
    case Class(m) =>
      AtPrefix(pat, pos + 1, [LBRACKET], SetText(m));
      SetNotEmpty(m);
      AtSplit(pat, pos + 1, [LBRACKET], SetText(m));
      LexPlain(syn, pat, pos, LBRACKET, begins);
      ReadSet(pat, pos + 1, m);
    case WordChar => LexQuoted(syn, pat, pos, 119, begins);
    case NotWordChar => LexQuoted(syn, pat, pos, 87, begins);
    case BackRef(n) => LexQuoted(syn, pat, pos, 48 + n, begins);
    case Assert(op) => LexQuoted(syn, pat, pos, AtomText(syn, a)[1], begins);
  }

  lemma {:induction false} SetNotEmpty(m: set<Byte>)
    ensures SetText(m) != []
  {
  }

  /** The text of one token is read as that token. */
  lemma {:induction false} LexToken(syn: Syntax, pat: Text, pos: nat, t: Tok, begins: bool)
    requires At(pat, pos + 1, TokText(syn, t))
    requires match t
      case TAtom(a) => AtomSpells(syn, a) && !IsLineTest(a)
      case TLow(a) => (a == Assert(CBOL) && begins) || (a == Assert(CEOL) && EndsHere(syn, pat, pos + 1))
      case TOpt => !begins
      case TStar => !begins
      case TPlus => !begins
      case TOr => true
      case TOpen => true
      case TClose => true
    ensures Lex(syn, pat, pos, begins) == Ok(Lexed(t, pos + |TokText(syn, t)|))
  {
    hide At, Lex, LexSet, AtomSpells, EndsHere, Literal, SetText;
    match t
    case TAtom(a) => LexAtom(syn, pat, pos, a, begins);
    case TLow(a) => LexPlain(syn, pat, pos, TokText(syn, t)[0], begins);
    case TStar => LexPlain(syn, pat, pos, STAR, begins);
    case TOpt => LexEither(syn, pat, pos, !syn.bkPlusQm, QUERY, begins);
    case TPlus => LexEither(syn, pat, pos, !syn.bkPlusQm, PLUS, begins);
    case TOr => LexEither(syn, pat, pos, syn.noBkVbar, VBAR, begins);
    case TOpen => LexEither(syn, pat, pos, syn.noBkParens, LPAREN, begins);
    case TClose => LexEither(syn, pat, pos, syn.noBkParens, RPAREN, begins);
  }

  lemma {:induction false} LexEither(syn: Syntax, pat: Text, pos: nat, plain: bool, c: Byte, begins: bool)
    requires At(pat, pos + 1, Quoted(plain, c)) && (plain ==> PlainOp(syn, c) != Rquote)
    ensures Lex(syn, pat, pos, begins) ==
      LexOp(syn, pat, if plain then PlainOp(syn, c) else QuotedOp(syn, c), c, pos + |Quoted(plain, c)|, begins)
  {
    hide At, Lex, LexOp, PlainOp, QuotedOp;
    if plain { LexPlain(syn, pat, pos, c, begins); } else { LexQuoted(syn, pat, pos, c, begins); }
  }

  /** A closing parenthesis makes a dollar sign before it mean the end of a line. */
  lemma {:induction false} CloseFollows(syn: Syntax, pat: Text, pos: nat)
    requires At(pat, pos + 1, TokText(syn, TClose))
    ensures EndsHere(syn, pat, pos)
  {
    AtChar(pat, pos + 1, TokText(syn, TClose), 0);
    if !syn.noBkParens { AtChar(pat, pos + 1, TokText(syn, TClose), 1); }
  }

  /** Whether an operand could only just begin after these tokens. */
  function After(ts: seq<Tok>, begins: bool): bool {
    if ts == [] then begins else BeginsAfter(ts[|ts| - 1])
  }

  lemma {:induction false} LineTestSize(syn: Syntax, t: Tok)
    ensures t == TLow(Assert(CBOL)) || t == TLow(Assert(CEOL)) ==> |TokText(syn, t)| == 1
  {
  }

  /** The parser on the text of tokens that are in place, whatever text follows. */
  lemma {:induction false} ParsePrefix(syn: Syntax, pat: Text, pos: nat, ts: seq<Tok>, more: Text, begins: bool,
                                       st: Parse)
    requires pos <= |pat| && pat[pos..] == TextOf(syn, ts) + more && AllInPlace(syn, ts, begins)
    ensures var next := pos + |TextOf(syn, ts)|;
      next <= |pat| && pat[next..] == more && ParseFrom(syn, pat, pos, begins, st) ==
        match ApplyAll(syn.tightVbar, st, ts)
        case Err(e) => Err(e)
        case Ok(st') => ParseFrom(syn, pat, next, After(ts, begins), st')
    decreases |ts|
  {
    hide Lex, Apply, TokText, Settled;
    if ts == [] {
      assert pat[pos..] == more;
    } else {
      var t, w := ts[0], TokText(syn, ts[0]);
      PrefixToken(syn, pat, pos, ts, more, begins);
      LineTestSize(syn, t);
      LexToken(syn, pat, pos, t, begins);
      var next := pos + |w|;
      match Apply(syn.tightVbar, st, t)
      case Err(_) => TextShorter(syn, pat, pos, ts, more);
      case Ok(st') =>
        ParsePrefix(syn, pat, next, ts[1..], more, BeginsAfter(t), st');
        assert ts[1..] != [] ==> ts[1..][|ts[1..]| - 1] == ts[|ts| - 1];
    }
  }

  lemma {:induction false} TextShorter(syn: Syntax, pat: Text, pos: nat, ts: seq<Tok>, more: Text)
    requires pos <= |pat| && pat[pos..] == TextOf(syn, ts) + more
    ensures pos + |TextOf(syn, ts)| <= |pat| && pat[pos + |TextOf(syn, ts)|..] == more
  {
    var t := TextOf(syn, ts);
    assert pat[pos..][|t|..] == more;
  }

  lemma {:induction false} PrefixToken(syn: Syntax, pat: Text, pos: nat, ts: seq<Tok>, more: Text, begins: bool)
    requires ts != [] && pos <= |pat| && pat[pos..] == TextOf(syn, ts) + more && InPlace(syn, ts, begins)
    ensures var w := TokText(syn, ts[0]);
      && pos + |w| <= |pat| && At(pat, pos + 1, w) && pat[pos + |w|..] == TextOf(syn, ts[1..]) + more
      && (ts[0] == TLow(Assert(CEOL)) ==> EndsHere(syn, pat, pos + |w|))
  {
    hide TokText, EndsHere;
    var w := TokText(syn, ts[0]);
    var rest := TextOf(syn, ts[1..]) + more;
    assert pat[pos..] == w + rest;
    assert pat[pos..][..|w|] == w && pat[pos..][|w|..] == rest;
    assert pat[pos..pos + |w|] == w;
    if ts[0] == TLow(Assert(CEOL)) {
      var next, v := pos + |w|, TokText(syn, TClose);
      assert ts[1..][0] == TClose;
      assert pat[next..] == v + (TextOf(syn, ts[1..][1..]) + more);
      assert pat[next..][..|v|] == v;
      assert pat[next..next + |v|] == v;
      CloseFollows(syn, pat, next);
    }
  }

  lemma {:induction false} ReadWhole(r: Regex, st: Parse, res: Result<Parse>)
    requires Reads(0, r, st, res) && st == Parse([], NO_FRAME, 1)
    ensures match res
      case Err(e) => e == TooComplex
      case Ok(st') => st'.outer == [] && Same(Settled(st'.top, true).done, r)
  {
    hide Same;
    if res.Ok? {
      CatEmpty(Empty);
      WholeSame(res.value.top, r);
    }
  }

  /** Under every syntax, the pattern that spells r reads as an expression that matches just what r
      matches, unless it exceeds the nesting limits. */
  lemma {:induction false} ReadsBack(syn: Syntax, r: Regex)
    requires Spells(syn, r)
    ensures match ParsePattern(syn, Show(syn, r))
      case Ok(s) => Same(s, r)
      case Err(e) => e == TooComplex
    ensures Opens(Tokens(r, 0)) < MAX_NESTING && Bars(Tokens(r, 0)) <= MAX_NESTING ==>
      ParsePattern(syn, Show(syn, r)).Ok?
  {
    hide Same, ParseFrom, AllInPlace, ApplyAll, Tokens, Opens, Bars, TextOf, Spells, Reads, Settled;
    var ts, pat, st := Tokens(r, 0), Show(syn, r), Parse([], NO_FRAME, 1);
    NothingInPlace(syn);
    TokensInPlace(syn, r, 0, [], true);
    assert ts + [] == ts;
    assert pat[0..] == TextOf(syn, ts) + [];
    ParsePrefix(syn, pat, 0, ts, [], true, st);
    assert |TextOf(syn, ts)| == |pat|;
    if ApplyAll(syn.tightVbar, st, ts).Ok? {
      ParseEnd(syn, pat, After(ts, true), ApplyAll(syn.tightVbar, st, ts).value);
    }
    ReadsTokens(syn.tightVbar, r, 0, st);
    var res := ApplyAll(syn.tightVbar, st, ts);
    if Opens(ts) < MAX_NESTING && Bars(ts) <= MAX_NESTING { EnoughRoom(syn.tightVbar, st, ts); }
    ReadWhole(r, st, res);
  }

  lemma {:induction false} ParseEnd(syn: Syntax, pat: Text, begins: bool, st: Parse)
    ensures ParseFrom(syn, pat, |pat|, begins, st) ==
      if st.outer != [] then Err(ParenthesisError) else Ok(Settled(st.top, true).done)
  {
  }

  lemma {:induction false} NothingInPlace(syn: Syntax)
    ensures forall begins :: AllInPlace(syn, [], begins)
  {
  }
}
