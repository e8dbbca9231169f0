/** The byte code of the regular-expression engine: opcodes, displacements, single instructions. */
module RegexCode {
  import Basics

  type Byte = Basics.Byte
  type Text = seq<Byte>
  type Code = seq<Byte>

  const CEND: Byte := 0
  const CBOL: Byte := 1
  const CEOL: Byte := 2
  const CSET: Byte := 3
  const CEXACT: Byte := 4
  const CANYCHAR: Byte := 5
  const CSTART_MEMORY: Byte := 6
  const CEND_MEMORY: Byte := 7
  const CMATCH_MEMORY: Byte := 8
  const CJUMP: Byte := 9
  const CSTAR_JUMP: Byte := 10
  const CFAILURE_JUMP: Byte := 11
  const CUPDATE_FAILURE_JUMP: Byte := 12
  const CDUMMY_FAILURE_JUMP: Byte := 13
  const CBEGBUF: Byte := 14
  const CENDBUF: Byte := 15
  const CWORDBEG: Byte := 16
  const CWORDEND: Byte := 17
  const CWORDBOUND: Byte := 18
  const CNOTWORDBOUND: Byte := 19
  const CSYNTAXSPEC: Byte := 20
  const CNOTSYNTAXSPEC: Byte := 21

  const NEWLINE: Byte := 10
  const SWORD: Byte := 1

  /** Letters and digits are the word characters of the default syntax table. */
  function Syntax(c: Byte): Byte {
    if 48 <= c <= 57 || 65 <= c <= 90 || 97 <= c <= 122 then SWORD else 0
  }

  predicate IsWord(c: Byte) {
    Syntax(c) == SWORD
  }

  // ---- Two-byte displacements -------------------------------------------------------------

  function Lo(disp: int): Byte {
    disp % 256
  }

  function Hi(disp: int): Byte {
    disp / 256 % 256
  }

  /** The two displacement bytes, read back through C's (int)(short). */
  function Disp(lo: Byte, hi: Byte): int {
    var a := lo + 256 * hi;
    if a < 0x8000 then a else a - 0x10000
  }

  /** A stored displacement reads back as itself exactly when it fits in sixteen bits. */
  lemma {:induction false} DispRoundTrip(disp: int)
    ensures Disp(Lo(disp), Hi(disp)) == disp <==> -0x8000 <= disp < 0x8000
  {
    var q := disp / 256;
    assert disp == 256 * q + disp % 256;
    assert q == 256 * (q / 256) + q % 256;
  }

  // ---- Bits of a character set ---------------------------------------------------------------

  function Pow2(b: nat): nat {
    if b == 0 then 1 else 2 * Pow2(b - 1)
  }

  /** Bit b of v, counted from the least significant one. */
  predicate HasBit(v: nat, b: nat) {
    if b == 0 then v % 2 == 1 else HasBit(v / 2, b - 1)
  }

  // ---- Instructions ------------------------------------------------------------------------

  datatype Instr =
    | End
    | Read                 // consumes one character
    | Test(op: TestOp)     // zero-width test
    | Mark                 // records a group boundary
    | Jump(target: int)
    | StarJump(target: int)
    | FailJump(target: int)
    | UpdateJump(target: int)
    | DummyJump(target: int)
    | Bad

  predicate IsTestOp(op: Byte) {
    op == CBOL || op == CEOL || CBEGBUF <= op <= CNOTWORDBOUND
  }

  type TestOp = op: Byte | IsTestOp(op) witness CBOL

  function Size(op: Byte): nat {
    if op == CSET then 33
    else if op == CEXACT || op == CSYNTAXSPEC || op == CNOTSYNTAXSPEC then 2
    else if CSTART_MEMORY <= op <= CMATCH_MEMORY then 2
    else if CJUMP <= op <= CDUMMY_FAILURE_JUMP then 3
    else 1
  }

  /** The instruction at p. Back-references decode as Bad: they are outside the matcher's model. */
  function Decode(code: Code, p: int): Instr {
    if !(0 <= p < |code|) || p + Size(code[p]) > |code| then Bad
    else
      var op := code[p];
      if op == CEND then End
      else if IsTestOp(op) then Test(op)
      else if op == CSET || op == CEXACT || op == CANYCHAR || op == CSYNTAXSPEC || op == CNOTSYNTAXSPEC then Read
      else if op == CSTART_MEMORY || op == CEND_MEMORY then Mark
      else if CJUMP <= op <= CDUMMY_FAILURE_JUMP then
        var t := p + 3 + Disp(code[p + 1], code[p + 2]);
        if op == CJUMP then Jump(t)
        else if op == CSTAR_JUMP then StarJump(t)
        else if op == CFAILURE_JUMP then FailJump(t)
        else if op == CUPDATE_FAILURE_JUMP then UpdateJump(t)
        else DummyJump(t)
      else Bad
  }

  /** The position just after the instruction at p. */
  function Next(code: Code, p: int): int {
    if 0 <= p < |code| then p + Size(code[p]) else p + 1
  }

  /** Does the reading instruction at p accept the character c? */
  predicate CharOk(code: Code, p: int, c: Byte)
    requires Decode(code, p).Read?
  {
    var op := code[p];
    if op == CSET then HasBit(code[p + 1 + c / 8], c % 8)
    else if op == CEXACT then c == code[p + 1]
    else if op == CANYCHAR then c != NEWLINE
    else if op == CSYNTAXSPEC then Syntax(c) == code[p + 1]
    else Syntax(c) != code[p + 1]
  }

  /** Does the zero-width test op hold at position i of the text? */
  predicate TestOk(op: TestOp, txt: Text, i: nat)
    requires i <= |txt|
  {
    if op == CBOL then i == 0 || txt[i - 1] == NEWLINE
    else if op == CEOL then i == |txt| || txt[i] == NEWLINE
    else if op == CBEGBUF then i == 0
    else if op == CENDBUF then i == |txt|
    else if op == CWORDBEG then i < |txt| && IsWord(txt[i]) && (i == 0 || !IsWord(txt[i - 1]))
    else if op == CWORDEND then i > 0 && IsWord(txt[i - 1]) && (i == |txt| || !IsWord(txt[i]))
    else if op == CWORDBOUND then i == 0 || i == |txt| || (IsWord(txt[i - 1]) != IsWord(txt[i]))
    else 0 < i < |txt| && IsWord(txt[i - 1]) == IsWord(txt[i])
  }

  // ---- What a program accepts ----------------------------------------------------------------

  /** Some way of running the program from p at text position i reaches Cend at position k within
      n steps. A failure jump may go either way; the plain meaning of a star jump is a jump. */
  ghost predicate AcceptsIn(code: Code, txt: Text, p: int, i: nat, k: nat, n: nat)
    requires i <= |txt|
    decreases n
  {
    match Decode(code, p)
    case End => i == k
    case Read => n > 0 && i < |txt| && CharOk(code, p, txt[i]) && AcceptsIn(code, txt, Next(code, p), i + 1, k, n - 1)
    case Test(op) => n > 0 && TestOk(op, txt, i) && AcceptsIn(code, txt, Next(code, p), i, k, n - 1)
    case Mark => n > 0 && AcceptsIn(code, txt, Next(code, p), i, k, n - 1)
    case Jump(t) => n > 0 && AcceptsIn(code, txt, t, i, k, n - 1)
    case StarJump(t) => n > 0 && AcceptsIn(code, txt, t, i, k, n - 1)
    case UpdateJump(t) => n > 0 && AcceptsIn(code, txt, t, i, k, n - 1)
    case DummyJump(t) => n > 0 && AcceptsIn(code, txt, t, i, k, n - 1)
    case FailJump(t) =>
      n > 0 && (AcceptsIn(code, txt, p + 3, i, k, n - 1) || AcceptsIn(code, txt, t, i, k, n - 1))
    case Bad => false
  }

  ghost predicate Accepts(code: Code, txt: Text, p: int, i: nat, k: nat)
    requires i <= |txt|
  {
    exists n: nat :: AcceptsIn(code, txt, p, i, k, n)
  }
}
