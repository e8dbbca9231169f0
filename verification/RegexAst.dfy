/** Regular expressions, their meaning on a text, and the code they are laid out as. */
module RegexAst {
  import opened RegexCode

  datatype Atom =
    | Char(c: Byte)
    | AnyChar
    | Class(members: set<Byte>)
    | WordChar
    | NotWordChar
    | Assert(op: TestOp)
    | BackRef(n: Byte)

  datatype Regex =
    | Empty
    | Leaf(a: Atom)
    | Cat(left: Regex, right: Regex)
    | Alt(left: Regex, right: Regex)
    | Star(body: Regex)
    | Plus(body: Regex)
    | Opt(body: Regex)
    | Group(reg: Byte, body: Regex)    // reg is 0 for a group beyond the last register

  // ---- Meaning ---------------------------------------------------------------------------------

  predicate AtomReads(a: Atom, c: Byte) {
    match a
    case Char(d) => c == d
    case AnyChar => c != NEWLINE
    case Class(m) => c in m
    case WordChar => IsWord(c)
    case NotWordChar => !IsWord(c)
    case Assert(_) => false
    case BackRef(_) => false
  }

  /** The characters txt[i..j] match r in their context. */
  ghost predicate Matches(r: Regex, txt: Text, i: nat, j: nat)
    requires i <= |txt| && j <= |txt|
    decreases r, 0
  {
    match r
    case Empty => i == j
    case Leaf(Assert(op)) => i == j && TestOk(op, txt, i)
    case Leaf(a) => i < |txt| && j == i + 1 && AtomReads(a, txt[i])
    case Cat(x, y) => exists m: nat | m <= |txt| :: Matches(x, txt, i, m) && Matches(y, txt, m, j)
    case Alt(x, y) => Matches(x, txt, i, j) || Matches(y, txt, i, j)
    case Star(x) => exists n: nat :: Repeats(x, txt, i, j, n)
    case Plus(x) => exists n: nat :: n > 0 && Repeats(x, txt, i, j, n)
    case Opt(x) => i == j || Matches(x, txt, i, j)
    case Group(_, x) => Matches(x, txt, i, j)
  }

  /** txt[i..j] is n matches of r in a row. */
  ghost predicate Repeats(r: Regex, txt: Text, i: nat, j: nat, n: nat)
    requires i <= |txt| && j <= |txt|
    decreases r, 1, n
  {
    if n == 0 then i == j
    else exists m: nat | m <= |txt| :: Matches(r, txt, i, m) && Repeats(r, txt, m, j, n - 1)
  }

  // ---- Layout ----------------------------------------------------------------------------------

  /** The number whose bit b, for each b < n, says whether c + b is a member. */
  function BitsFrom(members: set<Byte>, c: nat, n: nat): (v: nat)
    ensures v < Pow2(n)
    decreases n
  {
    if n == 0 then 0 else (if c in members then 1 else 0) + 2 * BitsFrom(members, c + 1, n - 1)
  }

  lemma {:induction false} BitsFromBit(members: set<Byte>, c: nat, n: nat, b: nat)
    requires b < n
    ensures HasBit(BitsFrom(members, c, n), b) <==> c + b in members
    decreases n
  {
    hide HasBit;
    var y := BitsFrom(members, c + 1, n - 1);
    BitOfPair(if c in members then 1 else 0, y, b);
    if b > 0 { BitsFromBit(members, c + 1, n - 1, b - 1); }
  }

  lemma {:induction false} BitOfPair(low: nat, y: nat, b: nat)
    requires low < 2
    ensures HasBit(low + 2 * y, b) <==> if b == 0 then low == 1 else HasBit(y, b - 1)
  {
    assert (low + 2 * y) / 2 == y && (low + 2 * y) % 2 == low;
  }

  /** Byte k of a set's bitmap. */
  function SetByte(members: set<Byte>, k: nat): Byte {
    BitsFrom(members, 8 * k, 8)
  }

  /** A character is a member exactly when its bit in the 32-byte map is set. */
  lemma {:induction false} SetByteBit(members: set<Byte>, c: Byte)
    ensures HasBit(SetByte(members, c / 8), c % 8) <==> c in members
  {
    var k, b := c / 8, c % 8;
    assert 8 * k + b == c;
    BitsFromBit(members, 8 * k, 8, b);
  }

  function Bitmap(members: set<Byte>): (m: Code)
    ensures |m| == 32
  {
    seq(32, (k: nat) => SetByte(members, k))
  }

  /** SETBIT on one byte. */
  function OrBit(v: Byte, b: nat): nat {
    if HasBit(v, b) then v else v + Pow2(b)
  }

  lemma {:induction false} BitsFromAdd(members: set<Byte>, x: Byte, c: nat, n: nat)
    ensures BitsFrom(members + {x}, c, n) ==
      if c <= x < c + n && x !in members then BitsFrom(members, c, n) + Pow2(x - c) else BitsFrom(members, c, n)
    decreases n
  {
    if n > 0 { BitsFromAdd(members, x, c + 1, n - 1); }
  }

  lemma {:induction false} BitsFromNot(members: set<Byte>, all: set<Byte>, c: nat, n: nat)
    requires forall x: Byte :: x in all
    requires c + n <= 256
    ensures BitsFrom(all - members, c, n) == Pow2(n) - 1 - BitsFrom(members, c, n)
    decreases n
  {
    if n > 0 { BitsFromNot(members, all, c + 1, n - 1); }
  }

  /** Setting the bit of a character adds it to the set. */
  lemma {:induction false} BitmapAdd(members: set<Byte>, c: Byte)
    ensures OrBit(Bitmap(members)[c / 8], c % 8) < 256
    ensures Bitmap(members)[c / 8 := OrBit(Bitmap(members)[c / 8], c % 8)] == Bitmap(members + {c})
  {
    hide Pow2, BitsFrom, HasBit;
    var k, b := c / 8, c % 8;
    assert 8 * k + b == c;
    SetByteBit(members, c);
    BitsFromAdd(members, c, 8 * k, 8);
    if c in members { assert members + {c} == members; }
    assert OrBit(Bitmap(members)[k], b) == SetByte(members + {c}, k);
    forall j: nat | j < 32 && j != k ensures SetByte(members + {c}, j) == SetByte(members, j) {
      BitsFromAdd(members, c, 8 * j, 8);
    }
  }

  /** Inverting every byte complements the set. */
  lemma {:induction false} BitmapNot(members: set<Byte>, all: set<Byte>)
    requires forall x: Byte :: x in all
    ensures forall k :: 0 <= k < 32 ==> Bitmap(all - members)[k] == 255 - Bitmap(members)[k]
  {
    hide Pow2, BitsFrom;
    forall k: nat | k < 32 ensures SetByte(all - members, k) == 255 - SetByte(members, k) {
      BitsFromNot(members, all, 8 * k, 8);
      Pow2Of8();
    }
  }

  lemma {:induction false} Pow2Of8()
    ensures Pow2(8) == 256
  {
    assert Pow2(4) == 16;
  }

  function EmitAtom(a: Atom): (e: Code)
    ensures |e| == AtomLen(a) == Size(e[0])
  {
    match a
    case Char(c) => [CEXACT, c]
    case AnyChar => [CANYCHAR]
    case Class(m) => [CSET] + Bitmap(m)
    case WordChar => [CSYNTAXSPEC, SWORD]
    case NotWordChar => [CNOTSYNTAXSPEC, SWORD]
    case Assert(op) => [op]
    case BackRef(n) => [CMATCH_MEMORY, n]
  }

  /** A three-byte jump instruction with a relative displacement. */
  function JumpCode(op: Byte, disp: int): Code {
    [op, Lo(disp), Hi(disp)]
  }

  function AtomLen(a: Atom): nat {
    match a
    case AnyChar => 1
    case Assert(_) => 1
    case Class(_) => 33
    case _ => 2
  }

  /** The length of the layout of r. */
  function Len(r: Regex): nat {
    match r
    case Empty => 0
    case Leaf(a) => AtomLen(a)
    case Cat(x, y) => Len(x) + Len(y)
    case Alt(x, y) => 6 + Len(x) + Len(y)
    case Star(x) => 6 + Len(x)
    case Plus(x) => 9 + Len(x)
    case Opt(x) => 3 + Len(x)
    case Group(g, x) => if g == 0 then Len(x) else 4 + Len(x)
  }

  /** A loop around code e: a failure jump past the loop, e, and a star jump back. */
  function StarCode(e: Code): Code {
    JumpCode(CFAILURE_JUMP, |e| + 3) + e + JumpCode(CSTAR_JUMP, -(|e| + 6))
  }

  /** The code of r. Displacements are relative, so a layout does not depend on where it stands. */
  function Emit(r: Regex): (e: Code)
    ensures |e| == Len(r)
  {
    match r
    case Empty => []
    case Leaf(a) => EmitAtom(a)
    case Cat(x, y) => Emit(x) + Emit(y)
    case Alt(x, y) =>
      JumpCode(CFAILURE_JUMP, |Emit(x)| + 3) + Emit(x) + JumpCode(CJUMP, |Emit(y)|) + Emit(y)
    case Star(x) => StarCode(Emit(x))
    case Plus(x) => JumpCode(CDUMMY_FAILURE_JUMP, 3) + StarCode(Emit(x))
    case Opt(x) => JumpCode(CFAILURE_JUMP, |Emit(x)|) + Emit(x)
    case Group(g, x) =>
      if g == 0 then Emit(x) else [CSTART_MEMORY, g] + Emit(x) + [CEND_MEMORY, g]
  }

  /** The whole compiled program. */
  function Program(r: Regex): Code {
    Emit(r) + [CEND]
  }

  /** No back-references. */
  predicate Supported(r: Regex) {
    match r
    case Empty => true
    case Leaf(a) => !a.BackRef?
    case Cat(x, y) => Supported(x) && Supported(y)
    case Alt(x, y) => Supported(x) && Supported(y)
    case Star(x) => Supported(x)
    case Plus(x) => Supported(x)
    case Opt(x) => Supported(x)
    case Group(_, x) => Supported(x)
  }

  /** Sixteen-bit displacements reach everywhere in the program. */
  predicate Small(r: Regex) {
    |Program(r)| < 0x8000
  }
}
