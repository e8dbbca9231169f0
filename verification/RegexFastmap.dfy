/** The first-character analysis: which characters can start a match from a position of the code. */
module RegexFastmap {
  import opened RegexCode
  import opened RegexWellFormed
  import opened RegexMachine
  import opened RegexLoops
  import opened RegexRuns

  // ---- The code graph ------------------------------------------------------------------------------

  /** A set of boundaries that the analysis cannot leave. */
  ghost predicate Closed(code: Code, bounds: set<int>) {
    forall p <- bounds :: ClosedAt(code, bounds, p)
  }

  ghost predicate ClosedAt(code: Code, bounds: set<int>, p: int) {
    0 <= p < |code| && Decode(code, p) != Bad && Onward(code, p, bounds)
  }

  /** Every zero-width step from p stays inside the set. */
  ghost predicate Onward(code: Code, p: int, within: set<int>) {
    match Decode(code, p)
    case Test(op) => op != CEOL ==> Next(code, p) in within
    case Mark => Next(code, p) in within
    case FailJump(t) => p + 3 in within && t in within
    case Jump(t) => t in within
    case StarJump(t) => t in within
    case UpdateJump(t) => t in within
    case DummyJump(t) => t in within
    case _ => true
  }

  lemma {:induction false} OnwardSteps(code: Code, p: int, within: set<int>, y: int)
    requires Onward(code, p, within) && EpsStep(code, p, y)
    ensures y in within
  {
  }

  lemma {:induction false} VariantClosed(code: Code, bounds: set<int>, now: Code)
    requires WellFormed(code, bounds) && Variant(code, bounds, now)
    ensures Closed(now, bounds)
  {
    hide WellFormed, Decode, Next, Variant, CharOk, Reader, StraightTo;
    forall p <- bounds ensures ClosedAt(now, bounds, p) {
      At(code, bounds, p);
      VariantAt(code, bounds, now, p);
      VariantLength(code, bounds, now);
      if Decode(now, p).UpdateJump? { BodyFacts(code, bounds, p, p); }
    }
  }

  lemma {:induction false} VariantLength(code: Code, bounds: set<int>, now: Code)
    requires Variant(code, bounds, now)
    ensures |now| == |code|
  {
  }

  // ---- What has been found so far ------------------------------------------------------------------

  ghost predicate MapOk(code: Code, seen: set<int>, map': seq<bool>) {
    |map'| == 256 && forall c: Byte :: map'[c] <==> exists x <- seen :: Contributes(code, x, c)
  }

  /** 1 when Cend has been reached, else 2 when Ceol has been, else 0. */
  ghost predicate NullOk(code: Code, seen: set<int>, null': Byte) {
    && null' <= 2
    && (null' == 1 <==> exists x <- seen :: Decode(code, x).End?)
    && (null' == 2 <==>
          (!exists x <- seen :: Decode(code, x).End?) && exists x <- seen :: Decode(code, x) == Test(CEOL))
  }

  ghost predicate VisitedOk(visited: seq<bool>, seen: set<int>) {
    forall v :: 0 <= v < |visited| && visited[v] ==> v in seen
  }

  ghost function Unvisited(visited: seq<bool>): set<int> {
    set v | 0 <= v < |visited| && !visited[v]
  }

  /** Everything seen, except the suspended positions, has all its steps inside `within`. */
  ghost predicate Explored(code: Code, seen: set<int>, gray: set<int>, within: set<int>) {
    forall x <- seen :: x !in gray ==> Onward(code, x, within)
  }

  ghost predicate Reached(code: Code, root: int, seen: set<int>) {
    forall x <- seen :: EpsReach(code, root, x)
  }

  lemma {:induction false} ReachStep(code: Code, root: int, x: int, y: int)
    requires EpsReach(code, root, x) && EpsStep(code, x, y)
    ensures EpsReach(code, root, y)
  {
    var n: nat :| EpsReachIn(code, root, x, n);
    ReachAppend(code, root, x, y, n);
  }

  lemma {:induction false} ReachAppend(code: Code, root: int, x: int, y: int, n: nat)
    requires EpsReachIn(code, root, x, n) && EpsStep(code, x, y)
    ensures EpsReachIn(code, root, y, n + 1)
    decreases n
  {
    hide EpsStep;
    if n == 0 {
      assert EpsReachIn(code, y, y, 0);
    } else {
      var z :| EpsStep(code, root, z) && EpsReachIn(code, z, x, n - 1);
      ReachAppend(code, z, x, y, n - 1);
    }
  }

  /** A set closed under steps holds everything reachable from its members. */
  lemma {:induction false} ClosedReach(code: Code, seen: set<int>, p: int, x: int, n: nat)
    requires Explored(code, seen, {}, seen) && p in seen && EpsReachIn(code, p, x, n)
    ensures x in seen
    decreases n
  {
    hide EpsStep, Onward;
    if n > 0 {
      var y :| EpsStep(code, p, y) && EpsReachIn(code, y, x, n - 1);
      OnwardSteps(code, p, seen, y);
      ClosedReach(code, seen, y, x, n - 1);
    }
  }

  // ---- Marking the characters of one instruction -----------------------------------------------------

  lemma {:induction false} NoBits(b: nat)
    ensures !HasBit(0, b)
  {
    if b > 0 { NoBits(b - 1); }
  }

  /** Cset: every byte of the map that is not zero is looked at bit by bit. */
  method MarkSet(code: array<Byte>, pos: nat, fastmap: array<bool>)
    requires pos + 32 <= code.Length && fastmap.Length == 256
    modifies fastmap
    ensures forall c: Byte :: fastmap[c] <==> old(fastmap[c]) || HasBit(code[pos + c / 8], c % 8)
  {
    var a := 0;
    while a < 32
      invariant 0 <= a <= 32
      invariant forall c: Byte :: fastmap[c] <==> old(fastmap[c]) || (c < 8 * a && HasBit(code[pos + c / 8], c % 8))
    {
      if code[pos + a] != 0 {
        var b := 0;
        while b < 8
          invariant 0 <= b <= 8
          invariant forall c: Byte ::
            fastmap[c] <==> old(fastmap[c]) || (c < 8 * a + b && HasBit(code[pos + c / 8], c % 8))
        {
          assert (8 * a + b) / 8 == a && (8 * a + b) % 8 == b;
          if HasBit(code[pos + a], b) { fastmap[8 * a + b] := true; }
          b := b + 1;
        }
      } else {
        forall c: Byte | 8 * a <= c < 8 * a + 8 ensures !HasBit(code[pos + c / 8], c % 8) { NoBits(c % 8); }
      }
      a := a + 1;
    }
  }

  method MarkSyntax(syntaxcode: Byte, same: bool, fastmap: array<bool>)
    requires fastmap.Length == 256
    modifies fastmap
    ensures forall c: Byte :: fastmap[c] <==> old(fastmap[c]) || ((Syntax(c) == syntaxcode) == same)
  {
    var a := 0;
    while a < 256
      invariant 0 <= a <= 256
      invariant forall c: Byte :: fastmap[c] <==> old(fastmap[c]) || (c < a && ((Syntax(c) == syntaxcode) == same))
    {
      if (Syntax(a) == syntaxcode) == same { fastmap[a] := true; }
      a := a + 1;
    }
  }

  method MarkAny(fastmap: array<bool>)
    requires fastmap.Length == 256
    modifies fastmap
    ensures forall c: Byte :: fastmap[c] <==> old(fastmap[c]) || c != NEWLINE
  {
    var a := 0;
    while a < 256
      invariant 0 <= a <= 256
      invariant forall c: Byte :: fastmap[c] <==> old(fastmap[c]) || (c < a && c != NEWLINE)
    {
      if a != NEWLINE { fastmap[a] := true; }
      a := a + 1;
    }
  }

  /** Marks what the reading instruction at pos accepts. */
  method MarkReader(code: array<Byte>, used: nat, pos: nat, fastmap: array<bool>)
    requires used <= code.Length
    requires Decode(code[..used], pos).Read? && fastmap.Length == 256
    modifies fastmap
    ensures forall c: Byte :: fastmap[c] <==> old(fastmap[c]) || CharOk(code[..used], pos, c)
  {
    var op := code[pos];
    if op == CSET {
      MarkSet(code, pos + 1, fastmap);
    } else if op == CEXACT {
      fastmap[code[pos + 1]] := true;
    } else if op == CANYCHAR {
      MarkAny(fastmap);
    } else {
      MarkSyntax(code[pos + 1], op == CSYNTAXSPEC, fastmap);
    }
  }

  // ---- The depth-first walk ----------------------------------------------------------------------------

  /** What the walk keeps: the results describe exactly the positions seen, all of them reachable, and
      whatever leads on from them, except from suspended positions, is inside `within`. */
  ghost predicate Walked(code: Code, bounds: set<int>, root: int, seen: set<int>, gray: set<int>, within: set<int>,
                         map': seq<bool>, null': Byte) {
    && seen <= bounds
    && Reached(code, root, seen)
    && Explored(code, seen, gray, within)
    && MapOk(code, seen, map')
    && NullOk(code, seen, null')
  }

  /** Seeing one more position whose contribution has been recorded. */
  lemma {:induction false} SeeMore(code: Code, bounds: set<int>, root: int, seen: set<int>, gray: set<int>,
                                   within: set<int>, map': seq<bool>, null': Byte, p: int, within': set<int>,
                                   gray': set<int>, map'': seq<bool>, null'': Byte)
    requires Walked(code, bounds, root, seen, gray, within, map', null')
    requires p in bounds && EpsReach(code, root, p) && within <= within' && gray <= gray'
    requires p in gray' || Onward(code, p, within')
    requires |map''| == 256 && forall c: Byte :: map''[c] <==> map'[c] || Contributes(code, p, c)
    requires null'' ==
      if Decode(code, p).End? then 1 else if Decode(code, p) == Test(CEOL) && null' == 0 then 2 else null'
    ensures Walked(code, bounds, root, seen + {p}, gray', within', map'', null'')
  {
    hide EpsReach, Decode, Contributes;
    assert Explored(code, seen + {p}, gray', within') by {
      forall x <- seen + {p} | x !in gray' ensures Onward(code, x, within') {
        if x in seen && x !in gray { OnwardMore(code, x, within, within'); }
      }
    }
    assert MapOk(code, seen + {p}, map'') by {
      forall c: Byte ensures map''[c] <==> exists x <- seen + {p} :: Contributes(code, x, c) {
        if map'[c] {
          var x :| x in seen && Contributes(code, x, c);
          assert x in seen + {p};
        }
        assert p in seen + {p};
      }
    }
    NullMore(code, seen, p, null', null'');
  }

  /** Seeing one more position that contributes nothing. */
  lemma {:induction false} SeeOnward(code: Code, bounds: set<int>, root: int, seen: set<int>, gray: set<int>,
                                     map': seq<bool>, null': Byte, p: int, within': set<int>, gray': set<int>)
    requires Walked(code, bounds, root, seen, gray, seen + {p}, map', null')
    requires p in bounds && EpsReach(code, root, p) && seen + {p} <= within' && gray <= gray'
    requires p in gray' || Onward(code, p, within')
    requires match Decode(code, p)
      case End => false
      case Read => false
      case Test(op) => op != CEOL
      case _ => true
    ensures Walked(code, bounds, root, seen + {p}, gray', within', map', null')
  {
    hide EpsReach, Decode, Walked;
    assert |map'| == 256 by { WalkedSize(code, bounds, root, seen, gray, seen + {p}, map', null'); }
    SeeMore(code, bounds, root, seen, gray, seen + {p}, map', null', p, within', gray', map', null');
  }

  lemma {:induction false} WalkedSize(code: Code, bounds: set<int>, root: int, seen: set<int>, gray: set<int>,
                                      within: set<int>, map': seq<bool>, null': Byte)
    requires Walked(code, bounds, root, seen, gray, within, map', null')
    ensures |map'| == 256
  {
  }

  lemma {:induction false} NullMore(code: Code, seen: set<int>, p: int, null': Byte, null'': Byte)
    requires NullOk(code, seen, null')
    requires null'' ==
      if Decode(code, p).End? then 1 else if Decode(code, p) == Test(CEOL) && null' == 0 then 2 else null'
    ensures NullOk(code, seen + {p}, null'')
  {
    hide Decode;
    var more := seen + {p};
    assert p in more;
    if exists x <- seen :: Decode(code, x).End? {
      var x :| x in seen && Decode(code, x).End?;
      assert x in more;
    }
    if exists x <- seen :: Decode(code, x) == Test(CEOL) {
      var x :| x in seen && Decode(code, x) == Test(CEOL);
      assert x in more;
    }
  }

  lemma {:induction false} OnwardMore(code: Code, x: int, within: set<int>, within': set<int>)
    requires Onward(code, x, within) && within <= within'
    ensures Onward(code, x, within')
  {
  }

  lemma {:induction false} WithinMore(code: Code, bounds: set<int>, root: int, seen: set<int>, gray: set<int>,
                                      within: set<int>, map': seq<bool>, null': Byte, within': set<int>)
    requires Walked(code, bounds, root, seen, gray, within, map', null') && within <= within'
    ensures Walked(code, bounds, root, seen, gray, within', map', null')
  {
    hide EpsReach, Decode, Contributes, Onward, NullOk, MapOk;
    forall x <- seen | x !in gray ensures Onward(code, x, within') { OnwardMore(code, x, within, within'); }
  }

  /** Marking a position that was not marked. */
  lemma {:induction false} MarkOne(visited: seq<bool>, t: int, seen: set<int>, more: set<int>)
    requires 0 <= t < |visited| && !visited[t] && VisitedOk(visited, seen) && seen + {t} <= more
    ensures VisitedOk(visited[t := true], more)
    ensures t in Unvisited(visited) && Unvisited(visited[t := true]) == Unvisited(visited) - {t}
  {
  }

  lemma {:induction false} MarkedSeen(visited: seq<bool>, t: int, seen: set<int>)
    requires 0 <= t < |visited| && visited[t] && VisitedOk(visited, seen)
    ensures seen + {t} == seen
  {
  }

  lemma {:induction false} VisitedMore(visited: seq<bool>, seen: set<int>, more: set<int>)
    requires VisitedOk(visited, seen) && seen <= more
    ensures VisitedOk(visited, more)
  {
  }

  method FastmapAux(code: array<Byte>, used: nat, ghost bounds: set<int>, ghost root: int, start: nat,
                    visited: array<bool>, null0: Byte, fastmap: array<bool>, ghost seen0: set<int>,
                    ghost gray: set<int>)
    returns (null': Byte, ghost seen: set<int>)
    requires used <= code.Length
    requires Closed(code[..used], bounds) && start in bounds && EpsReach(code[..used], root, start)
    requires visited != fastmap && visited.Length == used && fastmap.Length == 256 && gray <= seen0
    requires VisitedOk(visited[..], seen0)
    requires Walked(code[..used], bounds, root, seen0, gray, seen0, fastmap[..], null0)
    modifies visited, fastmap
    ensures seen0 + {start} <= seen && VisitedOk(visited[..], seen)
    ensures Unvisited(visited[..]) <= old(Unvisited(visited[..]))
    ensures Walked(code[..used], bounds, root, seen, gray, seen, fastmap[..], null')
    decreases Unvisited(visited[..])
  {
    hide Walked, Decode, EpsReach, Next, VisitedOk, Unvisited, Closed, EpsStep, CharOk;
    null', seen := null0, seen0;
    var c := code[..used];
    ghost var unvisited := Unvisited(visited[..]);
    ClosedHere(c, bounds, start);
    if visited[start] {
      MarkedSeen(visited[..], start, seen);
      return;
    }
    MarkOne(visited[..], start, seen, seen + {start});
    visited[start] := true;
    var pos := start;
    WithinMore(c, bounds, root, seen, gray, seen, fastmap[..], null', seen + {pos});
    while true
      invariant c == code[..used] && pos in bounds && EpsReach(c, root, pos)
      invariant seen0 <= seen && start in seen + {pos} && VisitedOk(visited[..], seen + {pos})
      invariant Unvisited(visited[..]) <= unvisited - {start}
      invariant Walked(c, bounds, root, seen, gray, seen + {pos}, fastmap[..], null')
      decreases Unvisited(visited[..]), used - pos
    {
      ClosedHere(c, bounds, pos);
      ghost var p, before, map0, null1 := pos, seen, fastmap[..], null';
      seen := seen + {p};
      match Decode(c, pos)
      case End =>
        null' := 1;
        SeeMore(c, bounds, root, before, gray, seen, map0, null1, p, seen, gray, fastmap[..], null');
        return;
      case Test(op) =>
        if op == CEOL {
          fastmap[NEWLINE] := true;
          if null' == 0 { null' := 2; }
          SeeMore(c, bounds, root, before, gray, seen, map0, null1, p, seen, gray, fastmap[..], null');
          return;
        }
        WalkOn(c, bounds, root, before, gray, map0, null1, p, Next(c, p));
        pos := pos + 1;
        VisitedMore(visited[..], seen, seen + {pos});
      case Read =>
        MarkReader(code, used, pos, fastmap);
        SeeMore(c, bounds, root, before, gray, seen, map0, null1, p, seen, gray, fastmap[..], null');
        return;
      case Mark =>
        WalkOn(c, bounds, root, before, gray, map0, null1, p, Next(c, p));
        pos := pos + 2;
        VisitedMore(visited[..], seen, seen + {pos});
      case FailJump(t) =>
        Branch(c, bounds, root, before, gray, map0, null1, p);
        null', seen := FastmapAux(code, used, bounds, root, t, visited, null', fastmap, seen, gray + {p});
        pos := pos + 3;
        Resume(c, bounds, root, seen, gray, p, fastmap[..], null', t);
        VisitedMore(visited[..], seen, seen + {pos});
      case Jump(_) | StarJump(_) | UpdateJump(_) | DummyJump(_) =>
        var t := Decode(c, pos).target;
        WalkOn(c, bounds, root, before, gray, map0, null1, p, t);
        if visited[t] {
          MarkedSeen(visited[..], t, seen);
          return;
        }
        MarkOne(visited[..], t, seen, seen + {t});
        visited[t] := true;
        pos := t;
      case Bad => assert false;
    }
  }

  /** A failure jump at p: both ways on are explored, p itself staying suspended meanwhile. */
  lemma {:induction false} Branch(code: Code, bounds: set<int>, root: int, seen: set<int>, gray: set<int>,
                                  map': seq<bool>, null': Byte, p: int)
    requires Walked(code, bounds, root, seen, gray, seen + {p}, map', null')
    requires Closed(code, bounds) && p in bounds && EpsReach(code, root, p) && Decode(code, p).FailJump?
    ensures var t := Decode(code, p).target;
      t in bounds && p + 3 in bounds && EpsReach(code, root, t) && EpsReach(code, root, p + 3) && 0 <= t < |code|
    ensures Walked(code, bounds, root, seen + {p}, gray + {p}, seen + {p}, map', null')
  {
    hide Walked, Decode, EpsReach, Closed;
    var t := Decode(code, p).target;
    ClosedHere(code, bounds, p);
    StepFacts(code, bounds, root, p, t);
    StepFacts(code, bounds, root, p, p + 3);
    ClosedHere(code, bounds, t);
    SeeOnward(code, bounds, root, seen, gray, map', null', p, seen + {p}, gray + {p});
  }

  lemma {:induction false} ClosedHere(code: Code, bounds: set<int>, p: int)
    requires Closed(code, bounds) && p in bounds
    ensures 0 <= p < |code| && Decode(code, p) != Bad && Onward(code, p, bounds)
  {
  }

  /** A zero-width step from p. */
  lemma {:induction false} StepFacts(code: Code, bounds: set<int>, root: int, p: int, y: int)
    requires Closed(code, bounds) && p in bounds && EpsReach(code, root, p) && EpsStep(code, p, y)
    ensures y in bounds && EpsReach(code, root, y)
    ensures Decode(code, p).Test? ==> Next(code, p) == p + 1
    ensures Decode(code, p).Mark? ==> Next(code, p) == p + 2
  {
    hide EpsReach;
    ClosedHere(code, bounds, p);
    OnwardSteps(code, p, bounds, y);
    ReachStep(code, root, p, y);
  }

  /** The only way on from p leads to y. */
  predicate LeadsTo(code: Code, p: int, y: int) {
    match Decode(code, p)
    case Test(op) => op != CEOL && y == Next(code, p)
    case Mark => y == Next(code, p)
    case Jump(t) => y == t
    case StarJump(t) => y == t
    case UpdateJump(t) => y == t
    case DummyJump(t) => y == t
    case _ => false
  }

  lemma {:induction false} WalkOn(code: Code, bounds: set<int>, root: int, seen: set<int>, gray: set<int>,
                                  map': seq<bool>, null': Byte, p: int, y: int)
    requires Walked(code, bounds, root, seen, gray, seen + {p}, map', null')
    requires Closed(code, bounds) && p in bounds && EpsReach(code, root, p) && LeadsTo(code, p, y)
    ensures y in bounds && EpsReach(code, root, y) && 0 <= y < |code|
    ensures Decode(code, p).Test? ==> Next(code, p) == p + 1
    ensures Decode(code, p).Mark? ==> Next(code, p) == p + 2
    ensures Walked(code, bounds, root, seen + {p}, gray, seen + {p} + {y}, map', null')
  {
    hide Walked, Decode, EpsReach, Closed;
    ClosedHere(code, bounds, p);
    StepFacts(code, bounds, root, p, y);
    ClosedHere(code, bounds, y);
    SeeOnward(code, bounds, root, seen, gray, map', null', p, seen + {p} + {y}, gray);
  }

  /** The target of a failure jump having been walked, only the way straight on is left. */
  lemma {:induction false} Resume(code: Code, bounds: set<int>, root: int, seen: set<int>, gray: set<int>, p: int,
                                  map': seq<bool>, null': Byte, t: int)
    requires Walked(code, bounds, root, seen, gray + {p}, seen, map', null')
    requires Decode(code, p) == FailJump(t) && t in seen
    ensures Walked(code, bounds, root, seen, gray, seen + {p + 3}, map', null')
  {
    hide EpsReach, Decode, Contributes, NullOk, MapOk;
    forall x <- seen | x !in gray ensures Onward(code, x, seen + {p + 3}) {
      if x != p { OnwardMore(code, x, seen, seen + {p + 3}); }
    }
  }

  // ---- The analysis from one position --------------------------------------------------------------------

  /** Fastmap and can_be_null after a complete walk: exactly what is reachable without consuming. */
  ghost predicate Analysed(code: Code, p: int, map': seq<bool>, null': Byte) {
    && |map'| == 256 && null' <= 2
    && (forall c: Byte :: map'[c] <==> FirstChar(code, p, c))
    && (null' == 1 <==> ReachesEnd(code, p))
    && (null' == 2 <==> !ReachesEnd(code, p) && ReachesEol(code, p))
  }

  ghost predicate ReachesEnd(code: Code, p: int) {
    exists x :: EpsReach(code, p, x) && Decode(code, x).End?
  }

  ghost predicate ReachesEol(code: Code, p: int) {
    exists x :: EpsReach(code, p, x) && Decode(code, x) == Test(CEOL)
  }

  lemma {:induction false} WalkedAnalysed(code: Code, bounds: set<int>, p: int, seen: set<int>, map': seq<bool>,
                                          null': Byte)
    requires Walked(code, bounds, p, seen, {}, seen, map', null') && p in seen
    ensures Analysed(code, p, map', null')
  {
    hide Decode, Contributes, EpsReachIn, Explored, Onward;
    forall x | EpsReach(code, p, x) ensures x in seen {
      var n: nat :| EpsReachIn(code, p, x, n);
      ClosedReach(code, seen, p, x, n);
    }
    assert forall x <- seen :: EpsReach(code, p, x);
  }

  /** re_do_compile_fastmap, whose memory allocation is taken to succeed. */
  method DoCompileFastmap(code: array<Byte>, used: nat, ghost bounds: set<int>, pos: nat, fastmap: array<bool>)
    returns (null': Byte)
    requires used <= code.Length
    requires Closed(code[..used], bounds) && pos in bounds && fastmap.Length == 256
    modifies fastmap
    ensures Analysed(code[..used], pos, fastmap[..], null')
  {
    hide Walked, Decode, EpsReach, Next, Closed;
    var visited := new bool[used](_ => false);
    forall c: Byte { fastmap[c] := false; }
    assert code[..used] == old(code[..used]);
    NothingYet(code[..used], bounds, pos, fastmap[..]);
    Here(code[..used], pos);
    ghost var seen;
    null', seen := FastmapAux(code, used, bounds, pos, pos, visited, 0, fastmap, {}, {});
    WalkedAnalysed(code[..used], bounds, pos, seen, fastmap[..], null');
  }

  lemma {:induction false} Here(code: Code, p: int)
    ensures EpsReach(code, p, p)
  {
    assert EpsReachIn(code, p, p, 0);
  }

  lemma {:induction false} NothingYet(code: Code, bounds: set<int>, root: int, map': seq<bool>)
    requires |map'| == 256 && forall c: Byte :: !map'[c]
    ensures Walked(code, bounds, root, {}, {}, {}, map', 0)
  {
  }

  // ---- The run-time test at a star jump ---------------------------------------------------------------------

  /** Does the instruction at pos accept a character that is in the map? */
  method ReaderMeets(code: array<Byte>, used: nat, pos: nat, fastmap: array<bool>) returns (meets: bool)
    requires used <= code.Length
    requires Decode(code[..used], pos).Read? && fastmap.Length == 256
    requires code[pos] == CEXACT || code[pos] == CANYCHAR || code[pos] == CSET
    ensures meets <==> exists c: Byte :: CharOk(code[..used], pos, c) && fastmap[c]
  {
    var op := code[pos];
    if op == CEXACT {
      meets := fastmap[code[pos + 1]];
    } else if op == CANYCHAR {
      var b := 0;
      while b < 256
        invariant 0 <= b <= 256
        invariant forall c: Byte :: c < b && c != NEWLINE ==> !fastmap[c]
      {
        if b != NEWLINE && fastmap[b] { return true; }
        b := b + 1;
      }
      meets := false;
    } else {
      var b := 0;
      while b < 256
        invariant 0 <= b <= 256
        invariant forall c: Byte :: c < b && HasBit(code[pos + 1 + c / 8], c % 8) ==> !fastmap[c]
      {
        if HasBit(code[pos + 1 + b / 8], b % 8) && fastmap[b] {
          assert CharOk(code[..used], pos, b);
          return true;
        }
        b := b + 1;
      }
      meets := false;
    }
  }

  /** Straight-line instructions of rewritten code lead from boundary to boundary. */
  lemma {:induction false} PlainNext(program: Code, bounds: set<int>, now: Code, p: int)
    requires WellFormed(program, bounds) && Variant(program, bounds, now) && p in bounds
    ensures 0 <= p < |now| && Decode(now, p) != Bad
    ensures IsPlain(Decode(now, p)) ==> Next(now, p) in bounds
    ensures Decode(now, p).Test? ==> Next(now, p) == p + 1
    ensures Decode(now, p).Mark? ==> Next(now, p) == p + 2
  {
    hide WellFormed, Variant, CanUpdate;
    At(program, bounds, p);
    VariantAt(program, bounds, now, p);
    VariantLength(program, bounds, now);
  }

  /** Finds the first instruction of a loop body that consumes a character. */
  method FindReader(code: array<Byte>, used: nat, ghost program: Code, ghost bounds: set<int>, head: nat)
    returns (found: bool, f: nat)
    requires used <= code.Length
    requires WellFormed(program, bounds) && Variant(program, bounds, code[..used]) && head in bounds
    ensures found <==> Reader(code[..used], head) != -1
    ensures found ==> f == Reader(code[..used], head) && f in bounds && f < used
    ensures found ==> code[f] == CEXACT || code[f] == CANYCHAR || code[f] == CSET
  {
    hide Decode, Next, WellFormed, Variant;
    ghost var c := code[..used];
    f := head;
    while true
      invariant f in bounds && Reader(c, head) == Reader(c, f)
      decreases used - f
    {
      PlainNext(program, bounds, c, f);
      match Decode(code[..used], f)
      case Test(_) => f := f + 1;
      case Mark => f := f + 2;
      case Read => return code[f] == CEXACT || code[f] == CANYCHAR || code[f] == CSET, f;
      case _ => return false, f;
    }
  }

  /** Walks straight-line code from p up to q. */
  method WalkStraight(code: array<Byte>, used: nat, ghost program: Code, ghost bounds: set<int>, p: nat, q: nat)
    returns (straight: bool)
    requires used <= code.Length
    requires WellFormed(program, bounds) && Variant(program, bounds, code[..used]) && p in bounds
    ensures straight <==> StraightTo(code[..used], p, q)
  {
    hide Decode, WellFormed, Variant;
    ghost var c := code[..used];
    var p1 := p;
    while p1 != q
      invariant p1 in bounds && StraightTo(c, p, q) == StraightTo(c, p1, q)
      decreases used - p1
    {
      PlainNext(program, bounds, c, p1);
      match Decode(code[..used], p1)
      case Read => p1 := p1 + Size(code[p1]);
      case Test(_) => p1 := p1 + 1;
      case Mark => p1 := p1 + 2;
      case _ => return false;
    }
    return true;
  }

  /** Decides whether the star jump at q may become an updating jump. */
  method TestUpdate(code: array<Byte>, used: nat, ghost program: Code, ghost bounds: set<int>, q: nat)
    returns (update: bool)
    requires used <= code.Length
    requires WellFormed(program, bounds) && Variant(program, bounds, code[..used]) && q in bounds
    requires Decode(code[..used], q).StarJump?
    ensures update <==> CanUpdate(code[..used], q)
  {
    hide Decode, WellFormed, Variant, Reader, StraightTo, CharOk;
    ghost var c := code[..used];
    StarPlaces(program, bounds, c, q);
    var head := Decode(code[..used], q).target + 3;
    var map' := new bool[256];
    VariantClosed(program, bounds, c);
    assert c == code[..used];
    var null' := DoCompileFastmap(code, used, bounds, q + 3, map');
    assert c == code[..used];
    var found, f := FindReader(code, used, program, bounds, head);
    if !found { return false; }
    ReaderReads(c, head);
    var meets := ReaderMeets(code, used, f, map');
    if meets { return false; }
    PlainNext(program, bounds, c, f);
    update := WalkStraight(code, used, program, bounds, f + Size(code[f]), q);
  }

  lemma {:induction false} ReaderReads(code: Code, p: int)
    requires Reader(code, p) != -1
    ensures Decode(code, Reader(code, p)).Read?
  {
  }

  lemma {:induction false} StarPlaces(program: Code, bounds: set<int>, now: Code, q: int)
    requires WellFormed(program, bounds) && Variant(program, bounds, now) && q in bounds && Decode(now, q).StarJump?
    ensures q + 3 in bounds && q + 3 < |now|
    ensures 0 <= Decode(now, q).target && Decode(now, q).target + 3 in bounds
  {
    hide WellFormed, Variant, Decode, Next, CanUpdate;
    At(program, bounds, q);
    VariantAt(program, bounds, now, q);
    VariantLength(program, bounds, now);
    At(program, bounds, q + 3);
    At(program, bounds, Decode(now, q).target);
  }

  // ---- Soundness --------------------------------------------------------------------------------------------

  /** What acceptance from p at i says about the character at i. */
  lemma {:induction false} FirstOf(code: Code, txt: Text, p: int, i: nat, k: nat, n: nat)
    requires i <= |txt| && AcceptsIn(code, txt, p, i, k, n)
    ensures ReachesEnd(code, p) || (i < |txt| && FirstChar(code, p, txt[i])) || (i == |txt| && ReachesEol(code, p))
    decreases n
  {
    hide Decode, Next, CharOk, EpsReach;
    Here(code, p);
    var y := p;
    match Decode(code, p) {
      case End => return;
      case Read => assert Contributes(code, p, txt[i]); return;
      case Test(op) =>
        if op == CEOL { if i < |txt| { assert Contributes(code, p, txt[i]); } return; }
        y := Next(code, p);
      case Mark => y := Next(code, p);
      case FailJump(t) => y := if AcceptsIn(code, txt, p + 3, i, k, n - 1) then p + 3 else t;
      case Jump(_) | StarJump(_) | UpdateJump(_) | DummyJump(_) => y := Decode(code, p).target;
    }
    FirstOf(code, txt, y, i, k, n - 1);
    assert EpsStep(code, p, y);
    PrependAll(code, p, y);
    if i < |txt| && FirstChar(code, y, txt[i]) {
      var x :| EpsReach(code, y, x) && Contributes(code, x, txt[i]);
      assert EpsReach(code, p, x);
    }
  }

  lemma {:induction false} PrependAll(code: Code, p: int, y: int)
    requires EpsStep(code, p, y)
    ensures forall x :: EpsReach(code, y, x) ==> EpsReach(code, p, x)
  {
    forall x | EpsReach(code, y, x) ensures EpsReach(code, p, x) {
      var n: nat :| EpsReachIn(code, y, x, n);
      assert EpsReachIn(code, p, x, n + 1);
    }
  }

  /** Fastmap soundness: if some run from p matches at text position i, then can_be_null is 1, or the
      character at i is in the fastmap, or i is the end of the text and can_be_null is 2. */
  lemma {:induction false} FastmapSound(program: Code, bounds: set<int>, now: Code, p: int, map': seq<bool>,
                                        null': Byte, txt: Text, i: nat, k: nat)
    requires WellFormed(program, bounds) && Variant(program, bounds, now) && p in bounds && !InTail(program, bounds, p)
    requires Analysed(now, p, map', null') && i <= |txt| && Accepts(program, txt, p, i, k)
    ensures null' == 1 || (i < |txt| && map'[txt[i]]) || (i == |txt| && null' == 2)
  {
    hide WellFormed, Variant, Decode, Next, CharOk, InTail, EpsReach, Contributes;
    var n: nat :| AcceptsIn(program, txt, p, i, k, n);
    FirstOf(program, txt, p, i, k, n);
    if i < |txt| && FirstChar(program, p, txt[i]) { FirstCharNow(program, bounds, now, p, txt[i]); }
    if ReachesEnd(program, p) {
      var x :| EpsReach(program, p, x) && Decode(program, x).End?;
      ReachedNow(program, bounds, now, p, x);
    }
    if ReachesEol(program, p) {
      var x :| EpsReach(program, p, x) && Decode(program, x) == Test(CEOL);
      ReachedNow(program, bounds, now, p, x);
    }
  }

  /** On a program none of whose jumps has been rewritten, that holds from every position. */
  lemma {:induction false} FastmapSoundFresh(program: Code, p: int, map': seq<bool>, null': Byte, txt: Text, i: nat,
                                             k: nat)
    requires Analysed(program, p, map', null') && i <= |txt| && Accepts(program, txt, p, i, k)
    ensures null' == 1 || (i < |txt| && map'[txt[i]]) || (i == |txt| && null' == 2)
  {
    hide Decode, Next, CharOk, EpsReach, Contributes;
    var n: nat :| AcceptsIn(program, txt, p, i, k, n);
    FirstOf(program, txt, p, i, k, n);
  }

  lemma {:induction false} ReachedNow(program: Code, bounds: set<int>, now: Code, p: int, x: int)
    requires WellFormed(program, bounds) && Variant(program, bounds, now) && p in bounds && !InTail(program, bounds, p)
    requires EpsReach(program, p, x)
    ensures EpsReach(now, p, x)
    ensures Decode(program, x).End? || Decode(program, x).Test? ==> Decode(now, x) == Decode(program, x)
  {
    hide WellFormed, Variant, Decode, Next, CharOk, InTail;
    var n: nat :| EpsReachIn(program, p, x, n);
    ReachNow(program, bounds, now, p, x, n);
    VariantAt(program, bounds, now, x);
  }
}
