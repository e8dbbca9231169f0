/** The one-pass compiler: emits code into a growing buffer, shifting what it has emitted to put
    jumps in front of it, and filling in the jumps of alternatives later. */
module RegexCompile {
  import opened RegexCode
  import opened RegexAst
  import opened RegexSyntax
  import opened RegexLayout

  class Compiler {
    const tight: bool
    const starts: array<nat>
    const futureJumps: array<nat>
    const openRegisters: array<Byte>
    var pattern: array<Byte>
    var used: nat
    var startsBase: nat
    var level: nat
    var numJumps: nat
    var nextRegister: nat
    var numOpen: nat
    var parenDepth: nat

    ghost predicate Shape()
      reads this, pattern
    {
      && used <= pattern.Length && starts.Length == 5 * MAX_NESTING && futureJumps.Length == MAX_NESTING
      && openRegisters.Length == RE_NREGS && starts != futureJumps && pattern != openRegisters
      && numJumps <= MAX_NESTING && numOpen <= RE_NREGS
    }

    ghost function Variables(): Vars
      reads this, pattern, starts, futureJumps, openRegisters
      requires Shape()
    {
      Vars(pattern[..used], starts[..], futureJumps[..numJumps], startsBase, level, nextRegister,
           openRegisters[..numOpen], parenDepth)
    }

    constructor (tight: bool)
      ensures Shape() && this.tight == tight && fresh(pattern) && fresh(starts) && fresh(futureJumps)
        && fresh(openRegisters)
      ensures Consistent(tight, Parse([], NO_FRAME, 1), Variables())
    {
      this.tight := tight;
      starts := new nat[5 * MAX_NESTING](_ => 0);
      futureJumps := new nat[MAX_NESTING](_ => 0);
      openRegisters := new Byte[RE_NREGS](_ => 0);
      pattern := new Byte[256](_ => 0);
      used, startsBase, level, numJumps, nextRegister, numOpen, parenDepth := 0, 0, 0, 0, 1, 0, 0;
      new;
      NoFrameCode();
      NoHoles();
      EmptyCode();
      assert starts[0] == 0;
    }

    /** ALLOC: makes room for more bytes, keeping the code. */
    method Alloc(amount: nat)
      requires Shape()
      modifies this`pattern
      ensures Shape() && used + amount <= pattern.Length && Variables() == old(Variables())
      ensures pattern == old(pattern) || fresh(pattern)
    {
      if used + amount > pattern.Length {
        var larger := new Byte[pattern.Length + 256 + amount](_ => 0);
        forall i | 0 <= i < used { larger[i] := pattern[i]; }
        assert larger[..used] == pattern[..used];
        pattern := larger;
      }
    }

    /** STORE. */
    method Store(b: Byte)
      requires Shape() && used < pattern.Length
      modifies this`used, pattern
      ensures Shape() && used == old(used) + 1
      ensures Variables() == old(Variables()).(code := old(Variables()).code + [b])
    {
      pattern[used] := b;
      used := used + 1;
    }

    method PutAddr(offset: nat, addr: int)
      requires Shape() && offset + 2 <= used
      modifies pattern
      ensures Shape()
      ensures Variables() == old(Variables()).(code := RegexLayout.PutAddr(old(Variables()).code, offset, addr))
    {
      var disp := addr - offset - 2;
      pattern[offset] := Lo(disp);
      pattern[offset + 1] := Hi(disp);
    }

    /** The loop of INSERT_JUMP: shifts the code from p on up by three bytes. */
    method Shift(p: nat)
      requires Shape() && p <= used && used + 3 <= pattern.Length
      modifies pattern
      ensures pattern[..p] == old(pattern[..p]) && pattern[p + 3..used + 3] == old(pattern[p..used])
    {
      var a: int := used - 1;
      while a >= p
        invariant p - 1 <= a < used
        invariant pattern[..a + 1] == old(pattern[..a + 1])
        invariant pattern[a + 4..used + 3] == old(pattern[a + 1..used])
      {
        pattern[a + 3] := pattern[a];
        assert pattern[a + 3..used + 3] == [pattern[a + 3]] + pattern[a + 4..used + 3];
        assert old(pattern[a..used]) == [old(pattern[a])] + old(pattern[a + 1..used]);
        a := a - 1;
      }
    }

    /** INSERT_JUMP: makes room at p and writes a jump to addr there. */
    method InsertJump(p: nat, op: Byte, addr: int)
      requires Shape() && p <= used && used + 3 <= pattern.Length
      modifies this`used, pattern
      ensures Shape() && used == old(used) + 3
      ensures Variables() == old(Variables()).(code := Insert(old(Variables()).code, p, op, addr))
    {
      hide Lo, Hi;
      Shift(p);
      var disp := addr - (p + 1) - 2;
      ghost var low, high := pattern[..p], pattern[p + 3..used + 3];
      pattern[p] := op;
      pattern[p + 1] := Lo(disp);
      pattern[p + 2] := Hi(disp);
      used := used + 3;
      assert pattern[..used] == low + [pattern[p], pattern[p + 1], pattern[p + 2]] + high;
    }

    /** SET_LEVEL_START. */
    method SetLevelStart()
      requires Shape() && startsBase + level < starts.Length
      modifies starts
      ensures Shape()
      ensures var v := old(Variables()); Variables() == v.(starts := v.starts[v.base + v.level := |v.code|])
    {
      starts[startsBase + level] := used;
    }

    /** Moves to the precedence level of the next operator. Going up records where the new levels
        start; going down fills in the jumps recorded since the new level started. */
    method ToLevel(target: nat, ghost st: Parse)
      requires Shape() && Consistent(tight, st, Variables()) && target <= 4
      modifies this`level, this`numJumps, pattern, starts
      ensures Shape() && used == old(used) && level == target
      ensures target == 4 ==> Consistent(tight, st, Variables())
      ensures target < 4 ==>
        var st' := st.(top := Settled(st.top, target < OrLevel(tight)));
        Agree(tight, st', Variables()) && (target >= 2 ==> Consistent(tight, st', Variables()))
    {
      if target > level {
        Raise(target);
        RaiseOk(tight, st, old(Variables()), target);
        if target < 4 { SettleOk(tight, st, Variables(), target < OrLevel(tight)); }
      } else if target < level {
        Lower(target, st);
        if target < OrLevel(tight) {
          PatchedOk(tight, st, old(Variables()), target);
        } else {
          LowerOk(tight, st, old(Variables()), target);
        }
      } else if target < 4 {
        SettleOk(tight, st, Variables(), target < OrLevel(tight));
      }
    }

    method Raise(target: nat)
      requires Shape() && level < target <= 4 && startsBase + 4 < starts.Length
      modifies this`level, starts
      ensures Shape() && level == target
      ensures var v := old(Variables());
        Variables() == v.(starts := Raised(v.starts, v.base, v.level, target, |v.code|), level := target)
    {
      ghost var v := Variables();
      level := level + 1;
      while level < target
        invariant Shape() && v.level < level <= target
        invariant Variables() == v.(starts := Raised(v.starts, v.base, v.level, level - 1, |v.code|), level := level)
      {
        SetLevelStart();
        level := level + 1;
      }
      SetLevelStart();
    }

    /** Below the level of `|`, the jumps of the current frame are all filled in, and no others; at
        that level or above, none is. */
    method Lower(target: nat, ghost st: Parse)
      requires Shape() && Consistent(tight, st, Variables()) && target < level
      modifies this`level, this`numJumps, pattern
      ensures Shape() && used == old(used)
      ensures target >= OrLevel(tight) ==> Variables() == old(Variables()).(level := target)
      ensures target < OrLevel(tight) ==>
        Variables() == old(Variables()).(code := PatchedCode(st, 0), jumps := OuterSpots(st.outer), level := target)
    {
      hide Consistent, Agree, LevelsOk, AllSpots, OuterSpots, PatchedCode, StateCode, RegexLayout.PutAddr;
      ghost var v, outer := Variables(), Pending(st.outer);
      ghost var m: nat := |st.top.alts|;
      level := target;
      JumpCount(tight, st, v);
      AllJumps(tight, st, v);
      PatchStart(st);
      StartAt(tight, st, v, target);
      while numJumps > 0 && futureJumps[numJumps - 1] >= starts[startsBase + level]
        invariant Shape() && used == |v.code| && m <= |st.top.alts| && outer + m <= |v.jumps|
        invariant Variables() == Filling(st, v, m, target)
        invariant target >= OrLevel(tight) ==> m == |st.top.alts|
      {
        NextJump(tight, st, v, m, target);
        FillLast(tight, st, v, m, target);
        m := m - 1;
      }
      if numJumps > 0 { NextJump(tight, st, v, m, target); }
    }

    lemma {:induction false} LastJump()
      requires Shape()
      ensures numJumps > 0 ==> Variables().jumps[numJumps - 1] == futureJumps[numJumps - 1]
    {
    }

    method DropJump()
      requires Shape() && numJumps > 0
      modifies this`numJumps
      ensures Shape()
      ensures var v := old(Variables()); Variables() == v.(jumps := v.jumps[..|v.jumps| - 1])
    {
      numJumps := numJumps - 1;
    }

    /** Fills in the last pending jump, which leads here. */
    method FillLast(ghost tight: bool, ghost st: Parse, ghost v: Vars, ghost m: nat, ghost target: nat)
      requires Shape() && Consistent(tight, st, v) && target < v.level && used == |v.code|
      requires 0 < m <= |st.top.alts| && Pending(st.outer) + m <= |v.jumps| && Variables() == Filling(st, v, m, target)
      modifies this`numJumps, pattern
      ensures Shape() && Variables() == Filling(st, v, m - 1, target)
    {
      hide Consistent, Filling, RegexLayout.PutAddr, Variables, Pending;
      Look();
      LastJump();
      FillStep(tight, st, v, m, target);
      PutAddr(futureJumps[numJumps - 1], used);
      DropJump();
    }

    // ---- Tokens ------------------------------------------------------------------------------------

    /** store_opcode and store_opcode_and_arg, at the level of ordinary characters. */
    method AddAtom(a: Atom, ghost st: Parse) returns (ghost st': Parse)
      requires Shape() && Consistent(tight, st, Variables()) && !a.Class?
      modifies this, pattern, starts
      ensures Shape() && (pattern == old(pattern) || fresh(pattern)) && Consistent(tight, st', Variables())
      ensures Apply(tight, st, TAtom(a)) == Ok(st')
    {
      hide Consistent, Agree, Variables, EmitAtom, Whole, OuterCode, FrameLen;
      ToLevel(4, st);
      Look();
      Room(tight, st, Variables());
      AtomOk(tight, st, Variables(), a);
      SetLevelStart();
      StoreOp(a);
      st' := st.(top := st.top.(cat := Cat(st.top.cat, st.top.last), last := Leaf(a)));
    }

    /** One opcode, with its argument if it has one. */
    method StoreOp(a: Atom)
      requires Shape() && !a.Class?
      modifies this`pattern, this`used, pattern
      ensures Shape() && (pattern == old(pattern) || fresh(pattern))
      ensures Variables() == old(Variables()).(code := old(Variables()).code + EmitAtom(a))
    {
      ghost var v := Variables();
      Alloc(2);
      match a {
        case Char(c) => Store(CEXACT); Store(c);
        case AnyChar => Store(CANYCHAR);
        case WordChar => Store(CSYNTAXSPEC); Store(SWORD);
        case NotWordChar => Store(CNOTSYNTAXSPEC); Store(SWORD);
        case Assert(op) => Store(op);
        case BackRef(n) => Store(CMATCH_MEMORY); Store(n);
        case Class(_) => assert false;
      }
      assert Variables().code == v.code + EmitAtom(a);
    }

    /** The same at the level of `^` and `$`. */
    method AddLow(a: Atom, ghost st: Parse) returns (ghost st': Parse)
      requires Shape() && Consistent(tight, st, Variables()) && !a.Class?
      modifies this, pattern, starts
      ensures Shape() && (pattern == old(pattern) || fresh(pattern)) && Consistent(tight, st', Variables())
      ensures Apply(tight, st, TLow(a)) == Ok(st')
    {
      hide Consistent, Agree, Variables, EmitAtom, Whole, OuterCode, FrameLen;
      ToLevel(LowLevel(tight), st);
      ghost var mid := st.(top := Settled(st.top, tight));
      Look();
      Room(tight, mid, Variables());
      LowOk(tight, mid, Variables(), a);
      SetLevelStart();
      StoreOp(a);
      ghost var f := mid.top;
      st' := mid.(top := if tight then f.(done := Cat(f.done, Leaf(a))) else f.(cat := Cat(f.cat, Leaf(a))));
    }

    /** The compiler's variables, seen through the fields that hold them. */
    lemma {:induction false} Look()
      requires Shape()
      ensures var v := Variables();
        && |v.code| == used && v.base == startsBase && v.level == level && v.next == nextRegister
        && |v.jumps| == numJumps && |v.opens| == numOpen && v.depth == parenDepth && |v.starts| == starts.Length
        && (startsBase + level < starts.Length ==> v.starts[v.base + v.level] == starts[startsBase + level])
        && (parenDepth < numOpen ==> v.opens[parenDepth] == openRegisters[parenDepth])
    {
    }

    /** `?`, `*` and `+`. */
    method AddPostfix(t: Tok, ghost st: Parse) returns (ghost st': Parse)
      requires Shape() && Consistent(tight, st, Variables()) && (t == TOpt || t == TStar || t == TPlus)
      modifies this, pattern, starts
      ensures Shape() && (pattern == old(pattern) || fresh(pattern)) && Consistent(tight, st', Variables())
      ensures Apply(tight, st, t) == Ok(st')
    {
      hide Consistent, Agree, Insert, Before, Emit, Variables, Len, Whole, OuterCode, FrameLen;
      ToLevel(4, st);
      ghost var v, r, x := Variables(), st.top.last, Before(st);
      Look();
      Room(tight, st, v);
      OperandOk(tight, st, v, r);
      var p := starts[startsBase + level];
      st' := st;
      if p == used { return; }
      Alloc(9);
      if t == TOpt {
        InsertJump(p, CFAILURE_JUMP, used + 3);
        OptInserted(x, r);
        WrapOk(tight, st, v, Opt(r));
        st' := st.(top := st.top.(last := Opt(r)));
      } else {
        InsertJump(p, CFAILURE_JUMP, used + 6);
        Look();
        InsertJump(used, CSTAR_JUMP, starts[startsBase + level]);
        StarInserted(x, r);
        if t == TPlus {
          InsertJump(p, CDUMMY_FAILURE_JUMP, p + 6);
          PlusInserted(x, r);
          WrapOk(tight, st, v, Plus(r));
          st' := st.(top := st.top.(last := Plus(r)));
        } else {
          WrapOk(tight, st, v, Star(r));
          st' := st.(top := st.top.(last := Star(r)));
        }
      }
    }

    /** A jump whose address is to be filled in later. */
    method StoreHole()
      requires Shape() && numJumps < MAX_NESTING && used + 3 <= pattern.Length
      modifies this`numJumps, this`used, futureJumps, pattern
      ensures Shape()
      ensures var v := old(Variables()); Variables() == v.(code := v.code + HOLE, jumps := v.jumps + [|v.code| + 1])
    {
      ghost var v := Variables();
      Store(CJUMP);
      futureJumps[numJumps] := used;
      numJumps := numJumps + 1;
      Store(0);
      Store(0);
      assert v.code + [CJUMP] + [0] + [0] == v.code + HOLE;
    }

    /** `|`. */
    method AddOr(ghost st: Parse) returns (ok: bool, ghost st': Parse)
      requires Shape() && Consistent(tight, st, Variables())
      modifies this, pattern, starts, futureJumps
      ensures Shape() && (pattern == old(pattern) || fresh(pattern))
      ensures Apply(tight, st, TOr) == if ok then Ok(st') else Err(TooComplex)
      ensures ok ==> Consistent(tight, st', Variables())
    {
      hide Consistent, Agree, Variables, Insert, Emit, Whole, OuterCode, FrameLen, HOLE;
      ToLevel(OrLevel(tight), st);
      ghost var mid := st.(top := Settled(st.top, false));
      ghost var v := Variables();
      Look();
      Room(tight, mid, v);
      JumpCount(tight, mid, v);
      OrRoom(tight, mid, v);
      if numJumps < MAX_NESTING { OrOk(tight, mid, v); }
      ok := EndAlternative();
      ghost var f := mid.top;
      st' := mid.(top := f.(alts := f.alts + [f.cat], cat := Empty));
    }

    /** A failure jump before the alternative that ends, and a pending jump after it. */
    method EndAlternative() returns (ok: bool)
      requires Shape() && startsBase + level < starts.Length && starts[startsBase + level] <= used
      modifies this`pattern, this`used, this`numJumps, pattern, starts, futureJumps
      ensures Shape() && (pattern == old(pattern) || fresh(pattern)) && ok == old(numJumps < MAX_NESTING)
      ensures ok ==>
        var v := old(Variables());
        var c := Insert(v.code, v.starts[v.base + v.level], CFAILURE_JUMP, |v.code| + 6);
        Variables() == v.(code := c + HOLE, jumps := v.jumps + [|c| + 1],
                          starts := v.starts[v.base + v.level := |c| + 3])
    {
      hide Variables, Insert, HOLE;
      Look();
      Alloc(6);
      Look();
      InsertJump(starts[startsBase + level], CFAILURE_JUMP, used + 6);
      if numJumps >= MAX_NESTING { return false; }
      StoreHole();
      HoleSize();
      Look();
      SetLevelStart();
      ok := true;
    }

    /** Gives a group that begins its register, while there are registers left. */
    method OpenRegister(ghost reg: Byte)
      requires Shape() && 1 <= nextRegister <= RE_NREGS && numOpen < nextRegister
      requires reg == if nextRegister < RE_NREGS then nextRegister else 0
      modifies this`pattern, this`used, this`numOpen, this`nextRegister, pattern, openRegisters
      ensures Shape() && (pattern == old(pattern) || fresh(pattern))
      ensures var v := old(Variables());
        Variables() == v.(code := v.code + OpenCode(reg), opens := if reg == 0 then v.opens else v.opens + [reg],
                          next := v.next + if reg == 0 then 0 else 1)
    {
      ghost var v := Variables();
      if nextRegister < RE_NREGS {
        Alloc(2);
        Store(CSTART_MEMORY);
        Store(nextRegister);
        openRegisters[numOpen] := nextRegister;
        numOpen := numOpen + 1;
        nextRegister := nextRegister + 1;
      }
      assert Variables().code == v.code + OpenCode(reg);
      assert Variables().opens == if reg == 0 then v.opens else v.opens + [reg];
    }

    /** An opening parenthesis. */
    method AddOpen(ghost st: Parse) returns (ok: bool, ghost st': Parse)
      requires Shape() && Consistent(tight, st, Variables())
      modifies this, pattern, starts, openRegisters
      ensures Shape() && (pattern == old(pattern) || fresh(pattern))
      ensures Apply(tight, st, TOpen) == if ok then Ok(st') else Err(TooComplex)
      ensures ok ==> Consistent(tight, st', Variables())
    {
      hide Consistent, Agree, Variables, OpenCode, Whole, OuterCode, FrameLen;
      ToLevel(4, st);
      ghost var v, reg := Variables(), Register(st);
      Room(tight, st, v);
      Look();
      if startsBase < (MAX_NESTING - 1) * 5 { EnterOk(tight, st, v, reg); }
      ok := BeginGroup(reg);
      st' := Parse(st.outer + [(Settled(st.top, false), reg)], NO_FRAME, st.nextRegister + (if reg == 0 then 0 else 1));
    }

    method BeginGroup(ghost reg: Byte) returns (ok: bool)
      requires Shape() && startsBase + level < starts.Length && startsBase % 5 == 0
      requires 1 <= nextRegister <= RE_NREGS && numOpen < nextRegister
      requires reg == if nextRegister < RE_NREGS then nextRegister else 0
      modifies this, pattern, starts, openRegisters
      ensures Shape() && (pattern == old(pattern) || fresh(pattern)) && ok == old(startsBase < (MAX_NESTING - 1) * 5)
      ensures ok ==>
        var v := old(Variables());
        var code := v.code + OpenCode(reg);
        Variables() == Vars(code, v.starts[v.base + v.level := |v.code|][v.base + 5 := |code|], v.jumps, v.base + 5, 0,
                            v.next + (if reg == 0 then 0 else 1), if reg == 0 then v.opens else v.opens + [reg],
                            v.depth + 1)
    {
      hide Variables, OpenCode;
      Look();
      SetLevelStart();
      Look();
      OpenRegister(reg);
      Look();
      if startsBase >= (MAX_NESTING - 1) * 5 { return false; }
      Descend();
      Look();
      SetLevelStart();
      ok := true;
    }

    /** PUSH_LEVEL_STARTS, for the inside of a group. */
    method Descend()
      requires Shape()
      modifies this`startsBase, this`level, this`parenDepth
      ensures Shape()
      ensures var v := old(Variables()); Variables() == v.(base := v.base + 5, level := 0, depth := v.depth + 1)
    {
      parenDepth := parenDepth + 1;
      startsBase := startsBase + 5;
      level := 0;
    }

    /** POP_LEVEL_STARTS, back to the level of the group as an operand. */
    method Ascend()
      requires Shape() && startsBase >= 5 && parenDepth > 0
      modifies this`startsBase, this`level, this`parenDepth
      ensures Shape()
      ensures var v := old(Variables()); Variables() == v.(base := v.base - 5, level := 4, depth := v.depth - 1)
    {
      startsBase := startsBase - 5;
      level := 4;
      parenDepth := parenDepth - 1;
    }

    /** Ends the register of a group that has one. */
    method CloseRegister(ghost reg: Byte)
      requires Shape() && (parenDepth < numOpen <==> reg != 0)
      requires parenDepth < numOpen ==> numOpen == parenDepth + 1 && openRegisters[parenDepth] == reg
      modifies this`pattern, this`used, this`numOpen, pattern
      ensures Shape() && (pattern == old(pattern) || fresh(pattern))
      ensures var v := old(Variables());
        Variables() == v.(code := v.code + (if reg == 0 then [] else [CEND_MEMORY, reg]),
                          opens := if v.depth < |v.opens| then v.opens[..v.depth] else v.opens)
    {
      ghost var v := Variables();
      if parenDepth < numOpen {
        Alloc(2);
        Store(CEND_MEMORY);
        numOpen := numOpen - 1;
        Store(openRegisters[numOpen]);
        assert Variables().opens == v.opens[..v.depth];
      }
      assert Variables().code == v.code + (if reg == 0 then [] else [CEND_MEMORY, reg]);
    }

    /** A closing parenthesis. */
    method AddClose(ghost st: Parse) returns (ok: bool, ghost st': Parse)
      requires Shape() && Consistent(tight, st, Variables())
      modifies this, pattern, starts
      ensures Shape() && (pattern == old(pattern) || fresh(pattern))
      ensures Apply(tight, st, TClose) == if ok then Ok(st') else Err(ParenthesisError)
      ensures ok ==> Consistent(tight, st', Variables())
    {
      hide Consistent, Agree, Variables;
      ToLevel(1, st);
      ghost var mid := st.(top := Settled(st.top, true));
      ghost var v, n := Variables(), |st.outer| - 1;
      st' := st;
      DepthOk(tight, mid, v);
      Look();
      if parenDepth <= 0 { return false, st; }
      LeaveOk(tight, mid, v);
      ghost var (g, reg) := st.outer[n];
      Ascend();
      Look();
      CloseRegister(reg);
      st' := mid.(outer := mid.outer[..n], top := g.(last := Group(reg, mid.top.done)));
      ok := true;
    }

    // ---- Sets ------------------------------------------------------------------------------------------

    /** An opcode for the empty set. */
    method StoreEmptySet()
      requires Shape() && used + 33 <= pattern.Length
      modifies this`used, pattern
      ensures Shape() && Variables() == InSet(old(Variables()), {})
    {
      hide Variables;
      ghost var v := Variables();
      Store(CSET);
      Look();
      var a := 0;
      while a < 32
        invariant a <= 32 && Shape() && used == |v.code| + 1 + a
        invariant Variables() == v.(code := v.code + [CSET] + Zeros(a))
      {
        Store(0);
        assert v.code + [CSET] + Zeros(a) + [0] == v.code + [CSET] + Zeros(a + 1);
        a := a + 1;
      }
      EmptyBitmap();
    }

    /** SETBIT. */
    method SetBit(offset: nat, bit: Byte, ghost v: Vars, ghost m: set<Byte>)
      requires Shape() && offset == |v.code| + 1 && Variables() == InSet(v, m)
      modifies pattern
      ensures Shape() && Variables() == InSet(v, m + {bit})
    {
      hide Bitmap, OrBit, Pow2, HasBit;
      BitmapAdd(m, bit);
      ghost var was := pattern[..used];
      assert was == v.code + [CSET] + Bitmap(m);
      assert pattern[offset + bit / 8] == was[offset + bit / 8] == Bitmap(m)[bit / 8];
      pattern[offset + bit / 8] := OrBit(pattern[offset + bit / 8], bit % 8);
      assert pattern[..used] == v.code + [CSET] + Bitmap(m)[bit / 8 := OrBit(Bitmap(m)[bit / 8], bit % 8)];
    }

    method SetBits(offset: nat, lo: nat, hi: Byte, ghost v: Vars, ghost m: set<Byte>)
      requires Shape() && offset == |v.code| + 1 && Variables() == InSet(v, m)
      modifies pattern
      ensures Shape() && Variables() == InSet(v, m + Between(lo, hi))
    {
      hide Variables, InSet, Between;
      var a := lo;
      ghost var acc: set<Byte> := m;
      while a <= hi
        invariant lo <= a && Shape() && used == old(used)
        invariant Variables() == InSet(v, acc)
        invariant forall c: Byte :: c in acc <==> c in m || (lo <= c < a && c <= hi)
      {
        SetBit(offset, a, v, acc);
        acc := acc + {a};
        a := a + 1;
      }
      assert acc == m + Between(lo, hi);
    }

    /** The members up to the closing bracket. */
    method AddMembers(pat: Text, start: nat, c: Byte, offset: nat, ghost v: Vars)
      returns (ok: bool, pos: nat, ghost acc: set<Byte>)
      requires start <= |pat| && Shape() && offset == |v.code| + 1 && Variables() == InSet(v, {})
      modifies pattern
      ensures Shape() && Variables() == InSet(v, acc)
      ensures SetFrom(pat, start, c, -1, false, true, {}) == if ok then Ok((acc, pos)) else Err(EndsPrematurely)
    {
      hide Variables, InSet, Between;
      var ch: Byte, prev: int, range: bool, first: bool := c, -1, false, true;
      pos := start;
      acc := {};
      while ch != RBRACKET || first
        invariant pos <= |pat| && -1 <= prev < 256 && (range ==> prev >= 0)
        invariant Shape() && Variables() == InSet(v, acc)
        invariant SetFrom(pat, pos, ch, prev, range, first, acc) == SetFrom(pat, start, c, -1, false, true, {})
        decreases |pat| - pos
      {
        first := false;
        if range {
          SetBits(offset, prev, ch, v, acc);
          acc := acc + Between(prev, ch);
          prev := -1;
          range := false;
        } else if prev != -1 && ch == DASH {
          range := true;
        } else {
          SetBit(offset, ch, v, acc);
          acc := acc + {ch};
          prev := ch;
        }
        if pos >= |pat| { return false, pos, acc; }
        ch := pat[pos];
        pos := pos + 1;
      }
      if range {
        SetBit(offset, DASH, v, acc);
        acc := acc + {DASH};
      }
      ok := true;
    }

    /** The bitmap of a complemented set: every byte inverted. */
    method Invert(offset: nat, ghost v: Vars, ghost m: set<Byte>)
      requires Shape() && offset == |v.code| + 1 && Variables() == InSet(v, m)
      modifies pattern
      ensures Shape() && Variables() == InSet(v, AllBytes() - m)
    {
      hide Bitmap, Between;
      var a := 0;
      ghost var was := pattern[..];
      InSetSize(v, m);
      assert |Variables().code| == used;
      assert was[..used] == v.code + [CSET] + Bitmap(m);
      while a < 32
        invariant 0 <= a <= 32 && Shape() && used == offset + 32
        invariant forall i :: 0 <= i < pattern.Length ==>
          pattern[i] == if offset <= i < offset + a then 255 - was[i] else was[i]
      {
        pattern[offset + a] := 255 - pattern[offset + a];
        a := a + 1;
      }
      BitmapNot(m, AllBytes());
      forall k: nat | k < 32 ensures was[offset + k] == Bitmap(m)[k] {
        assert was[offset + k] == was[..used][offset + k];
      }
      assert pattern[..used] == v.code + [CSET] + Bitmap(AllBytes() - m);
    }

    /** A set after its opening bracket. */
    method AddSet(pat: Text, start: nat, ghost st: Parse) returns (ok: bool, pos: nat, ghost st': Parse)
      requires start <= |pat| && Shape() && Consistent(tight, st, Variables())
      modifies this, pattern, starts
      ensures Shape() && (pattern == old(pattern) || fresh(pattern))
      ensures LexSet(pat, start).Err? <==> !ok
      ensures !ok ==> LexSet(pat, start) == Err(EndsPrematurely)
      ensures ok ==> LexSet(pat, start).value.next == pos <= |pat| && Consistent(tight, st', Variables())
      ensures ok ==> Apply(tight, st, LexSet(pat, start).value.tok) == Ok(st')
    {
      hide Consistent, Agree, Variables, EmitAtom, Whole, OuterCode, FrameLen, InSet, SetFrom, Between;
      ToLevel(4, st);
      Look();
      Room(tight, st, Variables());
      ghost var v := Variables();
      SetLevelStart();
      ghost var w := Variables();
      Alloc(33);
      StoreEmptySet();
      Look();
      InSetSize(w, {});
      var offset := used - 32;
      pos, st' := start, st;
      if pos >= |pat| { return false, pos, st; }
      var complement := pat[pos] == CARET;
      if complement {
        pos := pos + 1;
        if pos >= |pat| { return false, pos, st; }
      }
      var ch := pat[pos];
      pos := pos + 1;
      ghost var m;
      ok, pos, m := AddMembers(pat, pos, ch, offset, w);
      if !ok { return; }
      if complement {
        Invert(offset, w, m);
        m := AllBytes() - m;
      }
      AtomOk(tight, st, v, Class(m));
      ClassCode(w, m);
      st' := st.(top := st.top.(cat := Cat(st.top.cat, st.top.last), last := Leaf(Class(m))));
    }

    // ---- The whole pattern --------------------------------------------------------------------------

    /** An operator that is an ordinary character here. */
    method AddLiteral(syn: Syntax, low: bool, c: Byte, pos: nat, ghost st: Parse)
      returns (status: Status, ghost st': Parse)
      requires Shape() && Consistent(tight, st, Variables())
      modifies this, pattern, starts, futureJumps, openRegisters
      ensures Shape() && (pattern == old(pattern) || fresh(pattern))
      ensures Added(tight, st, Literal(syn, low, c, pos), status, pos, st')
      ensures status == Fine ==> Consistent(tight, st', Variables())
    {
      hide Consistent, Variables, Shape, Apply;
      status, st' := Fine, st;
      if syn.contextIndepOps { return Failed(OpError), st; }
      if low { st' := AddLow(Char(c), st); } else { st' := AddAtom(Char(c), st); }
    }

    method AddPlain(a: Atom, low: bool, ghost st: Parse, pos: nat) returns (status: Status, ghost st': Parse)
      requires Shape() && Consistent(tight, st, Variables()) && !a.Class?
      modifies this, pattern, starts, futureJumps, openRegisters
      ensures Shape() && (pattern == old(pattern) || fresh(pattern))
      ensures Added(tight, st, Ok(Lexed(if low then TLow(a) else TAtom(a), pos)), status, pos, st')
      ensures status == Fine && Consistent(tight, st', Variables())
    {
      hide Consistent, Variables, Shape, Apply;
      status := Fine;
      if low { st' := AddLow(a, st); } else { st' := AddAtom(a, st); }
    }

    /** The switch on the operator just read. */
    method AddOp(syn: Syntax, pat: Text, op: Op, c: Byte, start: nat, begins: bool, ghost st: Parse)
      returns (status: Status, pos: nat, ghost st': Parse)
      requires start <= |pat| && Shape() && Consistent(tight, st, Variables())
      modifies this, pattern, starts, futureJumps, openRegisters
      ensures Shape() && (pattern == old(pattern) || fresh(pattern))
      ensures Added(tight, st, LexOp(syn, pat, op, c, start, begins), status, pos, st')
      ensures status == Fine ==> Consistent(tight, st', Variables())
    {
      hide Consistent, Variables, Shape, Apply, Literal, LexSet, EndsHere;
      pos, status, st' := start, Fine, st;
      match op {
        case Rnormal => status, st' := AddPlain(Char(c), false, st, pos);
        case Rquote => status, st' := AddPlain(Char(c), false, st, pos);
        case Ranychar => status, st' := AddPlain(AnyChar, false, st, pos);
        case Rbol =>
          if begins { status, st' := AddPlain(Assert(CBOL), true, st, pos); }
          else { status, st' := AddLiteral(syn, true, c, pos, st); }
        case Reol =>
          if EndsHere(syn, pat, pos) { status, st' := AddPlain(Assert(CEOL), true, st, pos); }
          else { status, st' := AddLiteral(syn, true, c, pos, st); }
        case Roptional =>
          if begins { status, st' := AddLiteral(syn, false, c, pos, st); } else { st' := AddPostfix(TOpt, st); }
        case Rstar =>
          if begins { status, st' := AddLiteral(syn, false, c, pos, st); } else { st' := AddPostfix(TStar, st); }
        case Rplus =>
          if begins { status, st' := AddLiteral(syn, false, c, pos, st); } else { st' := AddPostfix(TPlus, st); }
        case Ror =>
          var ok;
          ok, st' := AddOr(st);
          if !ok { status := Failed(TooComplex); }
        case Ropenpar =>
          var ok;
          ok, st' := AddOpen(st);
          if !ok { status := Failed(TooComplex); }
        case Rclosepar =>
          var ok;
          ok, st' := AddClose(st);
          if !ok { status := Failed(ParenthesisError); }
        case Rmemory =>
          if c <= 48 { status := Failed(BadMatchRegister); }
          else { status, st' := AddPlain(BackRef(c - 48), false, st, pos); }
        case Ropenset =>
          var ok;
          ok, pos, st' := AddSet(pat, start, st);
          if !ok { status := Failed(EndsPrematurely); }
        case Rbegbuf => status, st' := AddPlain(Assert(CBEGBUF), false, st, pos);
        case Rendbuf => status, st' := AddPlain(Assert(CENDBUF), false, st, pos);
        case Rwordchar => status, st' := AddPlain(WordChar, false, st, pos);
        case Rnotwordchar => status, st' := AddPlain(NotWordChar, false, st, pos);
        case Rwordbeg => status, st' := AddPlain(Assert(CWORDBEG), false, st, pos);
        case Rwordend => status, st' := AddPlain(Assert(CWORDEND), false, st, pos);
        case Rwordbound => status, st' := AddPlain(Assert(CWORDBOUND), false, st, pos);
        case Rnotwordbound => status, st' := AddPlain(Assert(CNOTWORDBOUND), false, st, pos);
      }
    }

    /** The end of the pattern: everything pending is settled and Cend follows. */
    method Finish(ghost st: Parse) returns (ok: bool)
      requires Shape() && Consistent(tight, st, Variables())
      modifies this, pattern, starts
      ensures Shape() && (pattern == old(pattern) || fresh(pattern))
      ensures ok <==> st.outer == []
      ensures ok ==> pattern[..used] == Program(Settled(st.top, true).done) && numJumps == 0
    {
      hide Consistent, Agree, Whole, Emit;
      ToLevel(0, st);
      ghost var v := Variables();
      DepthOk(tight, st.(top := Settled(st.top, true)), v);
      if startsBase != 0 { return false; }
      FinalCode(tight, st, v);
      Alloc(1);
      Store(CEND);
      ok := true;
    }
  }

  /** A compilation that succeeded, or the error it stopped at. */
  datatype Status = Fine | Failed(error: Error)

  /** The outcome of compiling one token, against reading it and applying it to the parse. */
  ghost predicate Added(tight: bool, st: Parse, l: Result<Lexed>, status: Status, pos: nat, st': Parse) {
    match l
    case Err(e) => status == Failed(e)
    case Ok(x) =>
      match Apply(tight, st, x.tok)
      case Err(e) => status == Failed(e)
      case Ok(s) => status == Fine && st' == s && pos == x.next
  }

  /** re_compile_pattern. The program is the layout of the expression the pattern reads as. */
  method CompilePattern(syn: Syntax, pat: Text) returns (code: Code, status: Status)
    ensures match ParsePattern(syn, pat)
      case Ok(r) => status == Fine && code == Program(r)
      case Err(e) => status == Failed(e)
  {
    hide Consistent, PlainOp, QuotedOp, LexOp, Apply, Program, Settled;
    var c := new Compiler(syn.tightVbar);
    var pos, begins := 0, true;
    ghost var st := Parse([], NO_FRAME, 1);
    code := [];
    while pos < |pat|
      invariant pos <= |pat| && c.Shape() && fresh(c) && fresh(c.pattern)
      invariant c.tight == syn.tightVbar && fresh(c.starts) && fresh(c.futureJumps) && fresh(c.openRegisters)
      invariant Consistent(syn.tightVbar, st, c.Variables())
      invariant ParseFrom(syn, pat, pos, begins, st) == ParsePattern(syn, pat)
      decreases |pat| - pos
    {
      ghost var l := Lex(syn, pat, pos, begins);
      var ch := pat[pos];
      var next := pos + 1;
      var op := PlainOp(syn, ch);
      if op == Rquote {
        if next >= |pat| { return code, Failed(EndsPrematurely); }
        ch := pat[next];
        op := QuotedOp(syn, ch);
        next := next + 1;
      }
      assert l == LexOp(syn, pat, op, ch, next, begins);
      if l.Ok? { BeginsTok(syn, pat, op, ch, next, begins); }
      status, pos, st := c.AddOp(syn, pat, op, ch, next, begins, st);
      if status != Fine { return; }
      begins := op == Ropenpar || op == Ror;
    }
    var ok := c.Finish(st);
    if !ok { return code, Failed(ParenthesisError); }
    code, status := c.pattern[..c.used], Fine;
  }

  lemma {:induction false} BeginsTok(syn: Syntax, pat: Text, op: Op, c: Byte, pos: nat, begins: bool)
    requires pos <= |pat| && LexOp(syn, pat, op, c, pos, begins).Ok?
    ensures BeginsAfter(LexOp(syn, pat, op, c, pos, begins).value.tok) <==> op == Ropenpar || op == Ror
  {
    hide SetFrom, EndsHere;
  }

  lemma {:induction false} FinalCode(tight: bool, st: Parse, v: Vars)
    requires Agree(tight, st.(top := Settled(st.top, true)), v) && st.outer == []
    ensures v.code == Emit(Settled(st.top, true).done) && v.jumps == []
  {
    hide Whole, Emit;
    NoHoles();
    EmptyCode();
  }

  /** The variables while a set with these members is being compiled. */
  ghost function InSet(v: Vars, m: set<Byte>): Vars {
    v.(code := v.code + [CSET] + Bitmap(m))
  }

  lemma {:induction false} InSetSize(v: Vars, m: set<Byte>)
    ensures |InSet(v, m).code| == |v.code| + 33
  {
  }

  lemma {:induction false} ClassCode(v: Vars, m: set<Byte>)
    ensures InSet(v, m) == v.(code := v.code + EmitAtom(Class(m)))
  {
    assert v.code + [CSET] + Bitmap(m) == v.code + ([CSET] + Bitmap(m));
  }

  function Zeros(n: nat): (z: Code)
    ensures |z| == n
  {
    seq(n, _ => 0)
  }

  lemma {:induction false} EmptyBitmap()
    ensures Bitmap({}) == Zeros(32)
  {
    forall k: nat | k < 32 ensures SetByte({}, k) == 0 {
      NoBits(8 * k, 8);
    }
  }

  lemma {:induction false} NoBits(c: nat, n: nat)
    ensures BitsFrom({}, c, n) == 0
    decreases n
  {
    if n > 0 { NoBits(c + 1, n - 1); }
  }

  /** Wrapping the operand makes it longer. */
  lemma {:induction false} WrapOk(tight: bool, st: Parse, v: Vars, r: Regex)
    requires Consistent(tight, st, v) && v.level == 4
    requires r == Opt(st.top.last) || r == Star(st.top.last) || r == Plus(st.top.last)
    ensures Consistent(tight, st.(top := st.top.(last := r)), v.(code := Before(st) + Emit(r)))
  {
    hide Consistent, Emit, Before;
    OperandOk(tight, st, v, r);
  }

  lemma {:induction false} DepthOk(tight: bool, st: Parse, v: Vars)
    requires Agree(tight, st, v)
    ensures v.depth == |st.outer| && v.base == 5 * |st.outer|
  {
    hide LevelsOk, OuterLevelsOk, StateCode, AllSpots;
  }

  /** Bounds the compiler relies on. */
  lemma {:induction false} Room(tight: bool, st: Parse, v: Vars)
    requires Consistent(tight, st, v)
    ensures v.base + v.level < |v.starts| && v.base + 5 <= |v.starts| && v.depth == |st.outer|
      && v.base == 5 * |st.outer|
    ensures v.next == st.nextRegister && 1 <= v.next <= RE_NREGS && |v.opens| < v.next
    ensures |v.code| == |OuterCode(st.outer)| + FrameLen(st.top)
  {
    hide OuterCode, HolesLen, OuterLevelsOk, StateCode, AllSpots, FrameLen;
    StateLength(st);
  }

  lemma {:induction false} OrRoom(tight: bool, st: Parse, v: Vars)
    requires Consistent(tight, st, v) && v.level == OrLevel(tight)
    ensures v.base + OrLevel(tight) < |v.starts| && v.starts[v.base + OrLevel(tight)] <= |v.code|
  {
    hide OuterCode, HolesLen, OuterLevelsOk, StateCode, AllSpots;
    StateLength(st);
  }

  /** The variables when the jumps of all but the first m alternatives of the current frame are filled. */
  ghost function Filling(st: Parse, v: Vars, m: nat, target: nat): Vars
    requires m <= |st.top.alts| && Pending(st.outer) + m <= |v.jumps|
  {
    v.(code := PatchedCode(st, m), jumps := v.jumps[..Pending(st.outer) + m], level := target)
  }

  /** Filling in the last pending jump, which leads to the end of the code. */
  lemma {:induction false} FillStep(tight: bool, st: Parse, v: Vars, m: nat, target: nat)
    requires Consistent(tight, st, v)
    requires 0 < m <= |st.top.alts| && Pending(st.outer) + m <= |v.jumps|
    ensures var w := Filling(st, v, m, target);
      var n := |w.jumps|;
      && n > 0 && w.jumps[n - 1] >= 0 && w.jumps[n - 1] + 2 <= |w.code|
      && w.(code := PutAddr(w.code, w.jumps[n - 1], |w.code|), jumps := w.jumps[..n - 1])
         == Filling(st, v, m - 1, target)
  {
    hide Consistent, PatchedCode, PutAddr, Pending, OuterCode, HolesLen, Len;
    var n := Pending(st.outer) + m;
    SpotAt(tight, st, v, n);
    PatchStep(st, m);
    assert v.jumps[..n][n - 1] == v.jumps[n - 1];
    assert v.jumps[..n][..n - 1] == v.jumps[..n - 1];
  }

  lemma {:induction false} NextJump(tight: bool, st: Parse, v: Vars, m: nat, target: nat)
    requires Consistent(tight, st, v) && target < v.level && m <= |st.top.alts| && Pending(st.outer) + m <= |v.jumps|
    requires Pending(st.outer) + m > 0
    ensures v.base + target < |v.starts|
    ensures var jumps := v.jumps[..Pending(st.outer) + m];
      jumps[|jumps| - 1] >= v.starts[v.base + target] <==> target < OrLevel(tight) && m > 0
  {
    hide Consistent;
    SpotBounds(tight, st, v, Pending(st.outer) + m, target);
  }

  lemma {:induction false} JumpCount(tight: bool, st: Parse, v: Vars)
    requires Consistent(tight, st, v)
    ensures |v.jumps| == Pending(st.outer) + |st.top.alts| && v.base + 5 <= |v.starts| && v.level <= 4
    ensures v.code == StateCode(st)
  {
    hide OuterCode, HolesLen, OuterSpots, Spots, OuterLevelsOk, OpenOk, StateCode;
    OuterSpotsSize(st.outer);
    SpotsSize(|OuterCode(st.outer)| + Len(st.top.done), st.top.alts);
  }

  lemma {:induction false} AllJumps(tight: bool, st: Parse, v: Vars)
    requires Consistent(tight, st, v)
    ensures v.jumps[..|v.jumps|] == v.jumps
    ensures Pending(st.outer) <= |v.jumps| && v.jumps[..Pending(st.outer)] == OuterSpots(st.outer)
  {
    hide OuterCode, HolesLen, OuterSpots, Spots, OuterLevelsOk, OpenOk, StateCode, LevelsOk;
    OuterSpotsSize(st.outer);
    SpotsSize(|OuterCode(st.outer)| + Len(st.top.done), st.top.alts);
  }

  lemma {:induction false} StartAt(tight: bool, st: Parse, v: Vars, target: nat)
    requires Consistent(tight, st, v) && target < v.level
    ensures v.base + target < |v.starts|
  {
    hide OuterCode, HolesLen, OuterSpots, Spots, OuterLevelsOk, OpenOk, StateCode;
  }

  /** Which pending jumps lie at or after the start of the level being returned to. */
  lemma {:induction false} SpotBounds(tight: bool, st: Parse, v: Vars, n: nat, target: nat)
    requires Consistent(tight, st, v) && target < v.level && 0 < n <= |v.jumps|
    ensures v.base + target < |v.starts|
    ensures v.jumps[n - 1] >= v.starts[v.base + target] <==> target < OrLevel(tight) && n > Pending(st.outer)
  {
    hide OuterCode, HolesLen, OuterSpots, Spots, OuterLevelsOk, OpenOk, StateCode, AllSpots;
    SpotAt(tight, st, v, n);
    if n > Pending(st.outer) { HolesMore(st.top.alts, n - Pending(st.outer)); }
  }

  lemma {:induction false} HolesMore(alts: seq<Regex>, m: nat)
    requires m <= |alts|
    ensures HolesLen(alts[..m]) <= HolesLen(alts)
  {
    if m == |alts| { assert alts[..m] == alts; }
    else {
      assert alts[..|alts| - 1][..m] == alts[..m];
      HolesMore(alts[..|alts| - 1], m);
    }
  }
}
