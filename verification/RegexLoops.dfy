/** Loops in well-formed code, and the ways a running matcher may have rewritten them. */
module RegexLoops {
  import opened RegexCode
  import opened RegexWellFormed
  import opened RegexMachine

  // ---- Using well-formedness ----------------------------------------------------------------

  lemma {:induction false} At(code: Code, bounds: set<int>, p: int)
    requires WellFormed(code, bounds) && p in bounds
    ensures 0 <= p < |code| && GoodAt(code, bounds, p)
    ensures Decode(code, p).End? <==> p == |code| - 1
    ensures Decode(code, p) != Bad && p < Next(code, p) <= |code|
    ensures IsJump(Decode(code, p)) ==> Next(code, p) == p + 3
  {
    Width(code, p);
  }

  lemma {:induction false} Apart(code: Code, bounds: set<int>, p: int, x: int)
    requires WellFormed(code, bounds) && p in bounds && x in bounds && p < x
    ensures Next(code, p) <= x
  {
  }

  lemma {:induction false} Respect(code: Code, bounds: set<int>, q: int, x: int)
    requires WellFormed(code, bounds) && q in bounds && x in bounds
    ensures Respects(code, q, x)
  {
  }

  predicate IsPlain(i: Instr) {
    i.Read? || i.Test? || i.Mark?
  }

  // ---- Straight-line loops --------------------------------------------------------------------

  ghost function Head(code: Code, q: int): int
    requires Decode(code, q).StarJump?
  {
    Decode(code, q).target + 3
  }

  ghost function FirstReader(code: Code, q: int): int
    requires Decode(code, q).StarJump?
  {
    Reader(code, Head(code, q))
  }

  /** Before the reader there are only zero-width instructions. */
  lemma {:induction false} ReaderFacts(code: Code, bounds: set<int>, p: int, x: int)
    requires WellFormed(code, bounds) && p in bounds && Reader(code, p) != -1
    ensures Reader(code, p) in bounds && p <= Reader(code, p)
    ensures x in bounds && p <= x < Reader(code, p) ==> Decode(code, x).Test? || Decode(code, x).Mark?
    decreases |code| - p
  {
    hide WellFormed, Decode, Next;
    At(code, bounds, p);
    if Decode(code, p).Test? || Decode(code, p).Mark? {
      ReaderFacts(code, bounds, Next(code, p), x);
      if x in bounds && p < x { Apart(code, bounds, p, x); }
    }
  }

  lemma {:induction false} StraightFacts(code: Code, bounds: set<int>, p: int, q: int, x: int)
    requires WellFormed(code, bounds) && p in bounds && q in bounds && StraightTo(code, p, q)
    ensures p <= q
    ensures x in bounds && p <= x < q ==> IsPlain(Decode(code, x))
    decreases |code| - p
  {
    hide WellFormed, Decode, Next;
    At(code, bounds, p);
    if p != q {
      StraightFacts(code, bounds, Next(code, p), q, x);
      if x in bounds && p < x { Apart(code, bounds, p, x); }
    }
  }

  /** The body of a straight loop: zero-width code, the reader, then straight-line code. */
  lemma {:induction false} BodyFacts(code: Code, bounds: set<int>, q: int, x: int)
    requires WellFormed(code, bounds) && q in bounds && StraightLoop(code, q)
    ensures Head(code, q) - 3 in bounds && Head(code, q) in bounds && q + 3 in bounds
    ensures 3 <= Head(code, q) <= FirstReader(code, q) < q && FirstReader(code, q) in bounds
    ensures Decode(code, FirstReader(code, q)).Read?
    ensures x in bounds && Head(code, q) <= x < q ==> IsPlain(Decode(code, x))
    ensures x in bounds && Head(code, q) <= x < FirstReader(code, q) ==> !Decode(code, x).Read?
  {
    hide WellFormed, Decode, Next;
    At(code, bounds, q);
    At(code, bounds, Head(code, q) - 3);
    var f := FirstReader(code, q);
    ReaderFacts(code, bounds, Head(code, q), x);
    At(code, bounds, f);
    StraightFacts(code, bounds, Next(code, f), q, x);
    if x in bounds && f < x { Apart(code, bounds, f, x); }
  }

  /** Whatever leads into the body of a straight loop from outside is the loop's own failure jump,
      star jump (once rewritten) or dummy failure jump, and leads to its head. */
  lemma {:induction false} EntersAtHead(code: Code, bounds: set<int>, q: int, x: int, y: int)
    requires WellFormed(code, bounds) && q in bounds && StraightLoop(code, q)
    requires x in bounds && y in bounds && Head(code, q) <= y <= q
    requires y == Next(code, x) || (IsJump(Decode(code, x)) && y == Decode(code, x).target)
    ensures Head(code, q) <= x < q
      || (y == Head(code, q) && x == y - 3)
      || (y == Head(code, q) && x == y - 6 && Decode(code, x).DummyJump?)
  {
    hide WellFormed, Decode, Next;
    var h := Head(code, q);
    BodyFacts(code, bounds, q, x);
    At(code, bounds, x);
    At(code, bounds, h - 3);
    At(code, bounds, q);
    if y == Next(code, x) {
      if x < h - 3 { Apart(code, bounds, x, h - 3); }
      else if h - 3 < x { Apart(code, bounds, h - 3, x); }
    } else {
      Respect(code, bounds, q, x);
    }
  }

  // ---- Tails: what the character analysis never reaches ------------------------------------------

  /** x lies after the reader in the body of a straight loop, or is its star jump. */
  ghost predicate InTail(code: Code, bounds: set<int>, x: int) {
    exists q <- bounds :: StraightLoop(code, q) && FirstReader(code, q) < x <= q
  }

  lemma {:induction false} TailEntry(code: Code, bounds: set<int>, x: int, y: int)
    requires WellFormed(code, bounds) && x in bounds && EpsStep(code, x, y) && InTail(code, bounds, y)
    ensures y in bounds && InTail(code, bounds, x)
  {
    hide WellFormed, Decode, Next, Reader, StraightTo;
    var q :| q in bounds && StraightLoop(code, q) && FirstReader(code, q) < y <= q;
    At(code, bounds, x);
    BodyFacts(code, bounds, q, x);
    EntersAtHead(code, bounds, q, x, y);
    var f := FirstReader(code, q);
    if x < f { Apart(code, bounds, x, f); }
  }

  lemma {:induction false} LoopExitNotInTail(code: Code, bounds: set<int>, q: int)
    requires WellFormed(code, bounds) && q in bounds && Decode(code, q).StarJump?
    ensures !InTail(code, bounds, q + 3)
  {
    hide WellFormed, Decode, Next, Reader, StraightTo;
    if InTail(code, bounds, q + 3) {
      var l :| l in bounds && StraightLoop(code, l) && FirstReader(code, l) < q + 3 <= l;
      At(code, bounds, q);
      BodyFacts(code, bounds, l, q);
      var f := FirstReader(code, l);
      if q < f { Apart(code, bounds, q, f); }
      assert false;
    }
  }

  lemma {:induction false} StartNotInTail(code: Code, bounds: set<int>)
    requires WellFormed(code, bounds)
    ensures !InTail(code, bounds, 0)
  {
    hide WellFormed, Decode, Next, Reader, StraightTo;
    if InTail(code, bounds, 0) {
      var l :| l in bounds && StraightLoop(code, l) && FirstReader(code, l) < 0 <= l;
      BodyFacts(code, bounds, l, 0);
      assert false;
    }
  }

  // ---- Rewritten code ---------------------------------------------------------------------------

  /** What the instruction at p may have become. */
  ghost predicate SameAt(code: Code, now: Code, p: int) {
    match Decode(code, p)
    case StarJump(t) =>
      && Next(now, p) == p + 3
      && (Decode(now, p) == StarJump(t) || Decode(now, p) == Jump(t)
          || (Decode(now, p) == UpdateJump(t + 3) && CanUpdate(code, p)))
    case Read =>
      && Decode(now, p).Read? && Next(now, p) == Next(code, p) && 0 <= p < |code| && p < |now| && now[p] == code[p]
      && forall c: Byte :: CharOk(now, p, c) <==> CharOk(code, p, c)
    case i => Decode(now, p) == i && Next(now, p) == Next(code, p)
  }

  /** A program some of whose star jumps have been rewritten by earlier steps of the matcher. */
  ghost predicate Variant(code: Code, bounds: set<int>, now: Code) {
    |now| == |code| && forall p <- bounds :: SameAt(code, now, p)
  }

  lemma {:induction false} Fresh(code: Code, bounds: set<int>)
    requires WellFormed(code, bounds)
    ensures Variant(code, bounds, code)
  {
    hide Decode, Next, CharOk, GoodAt, Respects;
    forall p <- bounds ensures SameAt(code, code, p) { At(code, bounds, p); }
  }

  lemma {:induction false} VariantAt(code: Code, bounds: set<int>, now: Code, p: int)
    requires Variant(code, bounds, now) && p in bounds
    ensures SameAt(code, now, p)
  {
  }

  /** Codes that agree on an instruction's bytes agree on the instruction. */
  lemma {:induction false} SameBytes(a: Code, b: Code, p: int)
    requires |a| == |b| && 0 <= p < Next(a, p) <= |a| && a[p..Next(a, p)] == b[p..Next(a, p)]
    ensures Decode(b, p) == Decode(a, p) && Next(b, p) == Next(a, p) && a[p] == b[p]
    ensures Decode(a, p).Read? ==> forall c: Byte :: CharOk(b, p, c) <==> CharOk(a, p, c)
  {
    var n := Next(a, p);
    assert forall i :: p <= i < n ==> a[i] == a[p..n][i - p] && b[i] == b[p..n][i - p];
  }

  /** Rewriting the bytes of the jump at q changes no other instruction. */
  lemma {:induction false} OtherInstr(code: Code, bounds: set<int>, now: Code, q: int, later: Code, p: int)
    requires WellFormed(code, bounds) && Variant(code, bounds, now) && q in bounds && p in bounds && p != q
    requires IsJump(Decode(code, q)) && |later| == |now|
    requires forall i :: 0 <= i < |now| && !(q <= i < q + 3) ==> later[i] == now[i]
    ensures Decode(later, p) == Decode(now, p) && SameAt(code, later, p)
  {
    hide WellFormed, Decode, Next, CharOk, CanUpdate;
    At(code, bounds, p);
    At(code, bounds, q);
    VariantAt(code, bounds, now, p);
    if p < q { Apart(code, bounds, p, q); } else { Apart(code, bounds, q, p); }
    SameNext(code, now, p);
    SameBytes(now, later, p);
  }

  lemma {:induction false} SameNext(code: Code, now: Code, p: int)
    requires SameAt(code, now, p) && IsJump(Decode(code, p)) ==> Next(code, p) == p + 3
    requires SameAt(code, now, p)
    ensures Next(now, p) == Next(code, p)
  {
  }

  lemma {:induction false} MakeNormalJump(code: Code, bounds: set<int>, now: Code, q: int)
    requires WellFormed(code, bounds) && Variant(code, bounds, now) && q in bounds && Decode(now, q).StarJump?
    ensures 0 <= q < |now| && Variant(code, bounds, now[q := CJUMP])
    ensures Decode(now[q := CJUMP], q) == Jump(Decode(now, q).target)
  {
    hide WellFormed, CanUpdate, CharOk;
    At(code, bounds, q);
    VariantAt(code, bounds, now, q);
    var later := now[q := CJUMP];
    forall p <- bounds ensures SameAt(code, later, p) {
      if p != q { OtherInstr(code, bounds, now, q, later, p); }
    }
  }

  lemma {:induction false} MakeUpdateJump(code: Code, bounds: set<int>, now: Code, q: int)
    requires WellFormed(code, bounds) && Variant(code, bounds, now) && q in bounds && Decode(now, q).StarJump?
    requires CanUpdate(code, q)
    ensures 0 <= q && q + 3 <= |now|
    ensures var t := Decode(now, q).target;
      var later := Patch(now, q, CUPDATE_FAILURE_JUMP, t - q);
      Variant(code, bounds, later) && Decode(later, q) == UpdateJump(t + 3)
  {
    hide WellFormed, CanUpdate, CharOk;
    At(code, bounds, q);
    VariantAt(code, bounds, now, q);
    var t := Decode(now, q).target;
    var later := Patch(now, q, CUPDATE_FAILURE_JUMP, t - q);
    DispRoundTrip(t - q);
    assert Decode(later, q) == UpdateJump(t + 3);
    forall p <- bounds ensures SameAt(code, later, p) {
      if p != q { OtherInstr(code, bounds, now, q, later, p); }
    }
  }
}
