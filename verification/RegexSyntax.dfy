/** How a pattern string reads: its tokens, and the expression they build. */
module RegexSyntax {
  import opened RegexCode
  import opened RegexAst

  /** The syntax bits; RE_ANSI_HEX is taken to be off. */
  datatype Syntax = Syntax(noBkParens: bool, noBkVbar: bool, bkPlusQm: bool, tightVbar: bool,
                           newlineOr: bool, contextIndepOps: bool, noGnuExtensions: bool)

  datatype Error = OpError | ParenthesisError | EndsPrematurely | TooComplex | BadMatchRegister

  datatype Result<+T> = Ok(value: T) | Err(error: Error)

  const MAX_NESTING: nat := 100
  const RE_NREGS: nat := 10

  // ---- Characters with a meaning -------------------------------------------------------------

  datatype Op =
    | Rnormal | Ranychar | Rquote | Rbol | Reol | Roptional | Rstar | Rplus | Ror | Ropenpar | Rclosepar
    | Rmemory | Ropenset | Rbegbuf | Rendbuf | Rwordchar | Rnotwordchar | Rwordbeg | Rwordend | Rwordbound
    | Rnotwordbound

  const BACKSLASH: Byte := 92
  const LPAREN: Byte := 40
  const RPAREN: Byte := 41
  const VBAR: Byte := 124
  const DASH: Byte := 45
  const CARET: Byte := 94
  const RBRACKET: Byte := 93

  function PlainOp(syn: Syntax, c: Byte): Op {
    if c == BACKSLASH then Rquote
    else if c == LPAREN && syn.noBkParens then Ropenpar
    else if c == RPAREN && syn.noBkParens then Rclosepar
    else if c == VBAR && syn.noBkVbar then Ror
    else if c == 42 then Rstar
    else if c == 43 && !syn.bkPlusQm then Rplus
    else if c == 63 && !syn.bkPlusQm then Roptional
    else if c == NEWLINE && syn.newlineOr then Ror
    else if c == 91 then Ropenset
    else if c == CARET then Rbol
    else if c == 36 then Reol
    else if c == 46 then Ranychar
    else Rnormal
  }

  function QuotedOp(syn: Syntax, c: Byte): Op {
    if 48 <= c <= 57 then Rmemory
    else if c == LPAREN && !syn.noBkParens then Ropenpar
    else if c == RPAREN && !syn.noBkParens then Rclosepar
    else if c == VBAR && !syn.noBkVbar then Ror
    else if c == 43 && syn.bkPlusQm then Rplus
    else if c == 63 && syn.bkPlusQm then Roptional
    else if syn.noGnuExtensions then Rnormal
    else if c == 119 then Rwordchar
    else if c == 87 then Rnotwordchar
    else if c == 60 then Rwordbeg
    else if c == 62 then Rwordend
    else if c == 98 then Rwordbound
    else if c == 66 then Rnotwordbound
    else if c == 96 then Rbegbuf
    else if c == 39 then Rendbuf
    else Rnormal
  }

  // ---- Tokens ------------------------------------------------------------------------------------

  /** TLow is an atom at the precedence of `^` and `$`, which no postfix operator applies to. */
  datatype Tok = TAtom(a: Atom) | TLow(a: Atom) | TOpt | TStar | TPlus | TOr | TOpen | TClose

  datatype Lexed = Lexed(tok: Tok, next: nat)

  /** The members of a set from its first character on, and the position after its bracket. */
  function SetFrom(pat: Text, pos: nat, ch: Byte, prev: int, range: bool, first: bool, acc: set<Byte>)
    : (r: Result<(set<Byte>, nat)>)
    requires pos <= |pat| && -1 <= prev && (range ==> prev >= 0)
    ensures r.Ok? ==> pos <= r.value.1 <= |pat|
    decreases |pat| - pos
  {
    if ch == RBRACKET && !first then Ok((if range then acc + {DASH} else acc, pos))
    else
      var (acc', prev', range') :=
        if range then (acc + Between(prev, ch), -1, false)
        else if prev != -1 && ch == DASH then (acc, prev, true)
        else (acc + {ch}, ch, false);
      if pos >= |pat| then Err(EndsPrematurely)
      else SetFrom(pat, pos + 1, pat[pos], prev', range', false, acc')
  }

  function Between(lo: nat, hi: Byte): (r: set<Byte>)
    ensures forall c: Byte :: c in r <==> lo <= c <= hi
    decreases hi - lo + 1
  {
    if lo > hi then {} else {lo} + Between(lo + 1, hi)
  }

  function AllBytes(): set<Byte> {
    Between(0, 255)
  }

  /** A set after its opening bracket. */
  function LexSet(pat: Text, pos: nat): (r: Result<Lexed>)
    requires pos <= |pat|
    ensures r.Ok? ==> pos <= r.value.next <= |pat|
  {
    if pos >= |pat| then Err(EndsPrematurely)
    else if pat[pos] == CARET then
      if pos + 1 >= |pat| then Err(EndsPrematurely)
      else
        match SetFrom(pat, pos + 2, pat[pos + 1], -1, false, true, {})
        case Ok((m, next)) => Ok(Lexed(TAtom(Class(AllBytes() - m)), next))
        case Err(e) => Err(e)
    else
      match SetFrom(pat, pos + 1, pat[pos], -1, false, true, {})
      case Ok((m, next)) => Ok(Lexed(TAtom(Class(m)), next))
      case Err(e) => Err(e)
  }

  /** Is `$` in a place where it means the end of a line? pos is the position after it. */
  predicate EndsHere(syn: Syntax, pat: Text, pos: nat) {
    || pos >= |pat|
    || (if syn.noBkVbar then pat[pos] == VBAR
        else pos + 1 < |pat| && pat[pos] == BACKSLASH && pat[pos + 1] == VBAR)
    || (if syn.noBkParens then pat[pos] == RPAREN
        else pos + 1 < |pat| && pat[pos] == BACKSLASH && pat[pos + 1] == RPAREN)
  }

  /** An operator that is an ordinary character here, unless the syntax forbids that. */
  function Literal(syn: Syntax, low: bool, c: Byte, next: nat): Result<Lexed> {
    if syn.contextIndepOps then Err(OpError)
    else Ok(Lexed(if low then TLow(Char(c)) else TAtom(Char(c)), next))
  }

  function LexOp(syn: Syntax, pat: Text, op: Op, c: Byte, pos: nat, begins: bool): (r: Result<Lexed>)
    requires pos <= |pat|
    ensures r.Ok? ==> pos <= r.value.next <= |pat|
  {
    match op
    case Rnormal => Ok(Lexed(TAtom(Char(c)), pos))
    case Rquote => Ok(Lexed(TAtom(Char(c)), pos))
    case Ranychar => Ok(Lexed(TAtom(AnyChar), pos))
    case Rbol => if begins then Ok(Lexed(TLow(Assert(CBOL)), pos)) else Literal(syn, true, c, pos)
    case Reol => if EndsHere(syn, pat, pos) then Ok(Lexed(TLow(Assert(CEOL)), pos)) else Literal(syn, true, c, pos)
    case Roptional => if begins then Literal(syn, false, c, pos) else Ok(Lexed(TOpt, pos))
    case Rstar => if begins then Literal(syn, false, c, pos) else Ok(Lexed(TStar, pos))
    case Rplus => if begins then Literal(syn, false, c, pos) else Ok(Lexed(TPlus, pos))
    case Ror => Ok(Lexed(TOr, pos))
    case Ropenpar => Ok(Lexed(TOpen, pos))
    case Rclosepar => Ok(Lexed(TClose, pos))
    case Rmemory => if c <= 48 then Err(BadMatchRegister) else Ok(Lexed(TAtom(BackRef(c - 48)), pos))
    case Ropenset => LexSet(pat, pos)
    case Rbegbuf => Ok(Lexed(TAtom(Assert(CBEGBUF)), pos))
    case Rendbuf => Ok(Lexed(TAtom(Assert(CENDBUF)), pos))
    case Rwordchar => Ok(Lexed(TAtom(WordChar), pos))
    case Rnotwordchar => Ok(Lexed(TAtom(NotWordChar), pos))
    case Rwordbeg => Ok(Lexed(TAtom(Assert(CWORDBEG)), pos))
    case Rwordend => Ok(Lexed(TAtom(Assert(CWORDEND)), pos))
    case Rwordbound => Ok(Lexed(TAtom(Assert(CWORDBOUND)), pos))
    case Rnotwordbound => Ok(Lexed(TAtom(Assert(CNOTWORDBOUND)), pos))
  }

  /** The token at pos; `begins` says whether an operand could only just begin here. */
  function Lex(syn: Syntax, pat: Text, pos: nat, begins: bool): (r: Result<Lexed>)
    requires pos < |pat|
    ensures r.Ok? ==> pos < r.value.next <= |pat|
  {
    var c := pat[pos];
    var op := PlainOp(syn, c);
    if op != Rquote then LexOp(syn, pat, op, c, pos + 1, begins)
    else if pos + 1 >= |pat| then Err(EndsPrematurely)
    else LexOp(syn, pat, QuotedOp(syn, pat[pos + 1]), pat[pos + 1], pos + 2, begins)
  }

  predicate BeginsAfter(t: Tok) {
    t == TOpen || t == TOr
  }

  // ---- Building the expression ------------------------------------------------------------------------

  /** What has been read at one nesting level: what precedes the current alternatives, the finished
      alternatives, the current one, and the operand a postfix operator would apply to. */
  datatype Frame = Frame(done: Regex, alts: seq<Regex>, cat: Regex, last: Regex)

  /** The enclosing levels with the register of the group each is waiting for, and the current one. */
  datatype Parse = Parse(outer: seq<(Frame, Byte)>, top: Frame, nextRegister: nat)

  const NO_FRAME: Frame := Frame(Empty, [], Empty, Empty)

  function AltOf(alts: seq<Regex>, last: Regex): Regex {
    if alts == [] then last else Alt(alts[0], AltOf(alts[1..], last))
  }

  /** Everything a frame has read, as one expression. */
  function Whole(f: Frame): Regex {
    Cat(f.done, AltOf(f.alts, Cat(f.cat, f.last)))
  }

  /** The frame once its operand, or all its alternatives, can no longer change. */
  function Settled(f: Frame, alternatives: bool): Frame {
    if alternatives then Frame(Whole(f), [], Empty, Empty)
    else f.(cat := Cat(f.cat, f.last), last := Empty)
  }

  function Pending(outer: seq<(Frame, Byte)>): nat {
    if outer == [] then 0 else Pending(outer[..|outer| - 1]) + |outer[|outer| - 1].0.alts|
  }

  function Register(st: Parse): Byte {
    if 0 < st.nextRegister < RE_NREGS then st.nextRegister else 0
  }

  /** One token. A postfix operator after nothing is ignored. */
  function Apply(tight: bool, st: Parse, t: Tok): Result<Parse> {
    var f := st.top;
    match t
    case TAtom(a) => Ok(st.(top := f.(cat := Cat(f.cat, f.last), last := Leaf(a))))
    case TLow(a) =>
      var g := Settled(f, tight);
      Ok(st.(top := if tight then g.(done := Cat(g.done, Leaf(a))) else g.(cat := Cat(g.cat, Leaf(a)))))
    case TOpt => Ok(if Len(f.last) == 0 then st else st.(top := f.(last := Opt(f.last))))
    case TStar => Ok(if Len(f.last) == 0 then st else st.(top := f.(last := Star(f.last))))
    case TPlus => Ok(if Len(f.last) == 0 then st else st.(top := f.(last := Plus(f.last))))
    case TOr =>
      var g := Settled(f, false);
      if Pending(st.outer) + |f.alts| >= MAX_NESTING then Err(TooComplex)
      else Ok(st.(top := g.(alts := g.alts + [g.cat], cat := Empty)))
    case TOpen =>
      var reg := Register(st);
      if |st.outer| >= MAX_NESTING - 1 then Err(TooComplex)
      else Ok(Parse(st.outer + [(Settled(f, false), reg)], NO_FRAME, st.nextRegister + (if reg == 0 then 0 else 1)))
    case TClose =>
      if st.outer == [] then Err(ParenthesisError)
      else
        var n := |st.outer| - 1;
        var (g, reg) := st.outer[n];
        Ok(st.(outer := st.outer[..n], top := g.(last := Group(reg, Settled(f, true).done))))
  }

  function ParseFrom(syn: Syntax, pat: Text, pos: nat, begins: bool, st: Parse): Result<Regex>
    requires pos <= |pat|
    decreases |pat| - pos
  {
    if pos == |pat| then
      if st.outer != [] then Err(ParenthesisError) else Ok(Settled(st.top, true).done)
    else
      match Lex(syn, pat, pos, begins)
      case Err(e) => Err(e)
      case Ok(l) =>
        match Apply(syn.tightVbar, st, l.tok)
        case Err(e) => Err(e)
        case Ok(st') => ParseFrom(syn, pat, l.next, BeginsAfter(l.tok), st')
  }

  /** The expression a pattern stands for. */
  function ParsePattern(syn: Syntax, pat: Text): Result<Regex> {
    ParseFrom(syn, pat, 0, true, Parse([], NO_FRAME, 1))
  }
}
