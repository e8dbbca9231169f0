/** The matches of an expression in order of preference: earlier alternatives before later ones, going around
    a loop before leaving it. The matcher reports the first. */
module RegexPreference {
  import opened RegexCode
  import opened RegexAst
  import opened RegexWellFormed
  import opened RegexMeaning
  import opened RegexMachine
  import opened RegexLoops
  import opened RegexRuns
  import opened RegexCorrect
  import opened RegexEngine
  import opened RegexChoice

  predicate Within(es: seq<nat>, i: nat, txt: Text) {
    forall k :: 0 <= k < |es| ==> i <= es[k] <= |txt|
  }

  /** Where the matches of r from i end, in order of preference. */
  function Ends(r: Regex, txt: Text, i: nat): (es: seq<nat>)
    requires i <= |txt|
    ensures Within(es, i, txt)
    decreases r, 0, 0, 0, 0
  {
    match r
    case Empty => [i]
    case Leaf(Assert(op)) => if TestOk(op, txt, i) then [i] else []
    case Leaf(a) => if i < |txt| && AtomReads(a, txt[i]) then [i + 1] else []
    case Cat(x, y) => EndsAfter(y, txt, Ends(x, txt, i), i)
    case Alt(x, y) => Ends(x, txt, i) + Ends(y, txt, i)
    case Star(x) => LoopEnds(x, txt, i)
    case Plus(x) => Rounds(x, txt, Ends(x, txt, i), i)
    case Opt(x) => Ends(x, txt, i) + [i]
    case Group(_, x) => Ends(x, txt, i)
  }

  /** From each of these positions in turn. */
  function EndsAfter(y: Regex, txt: Text, ms: seq<nat>, i: nat): (es: seq<nat>)
    requires Within(ms, i, txt)
    ensures Within(es, i, txt)
    decreases y, 1, |ms|, 0, 0
  {
    if ms == [] then [] else Ends(y, txt, ms[0]) + EndsAfter(y, txt, ms[1..], i)
  }

  /** Around the loop as often as possible, and then out. */
  function LoopEnds(x: Regex, txt: Text, i: nat): (es: seq<nat>)
    requires i <= |txt|
    ensures Within(es, i, txt)
    decreases x, 2, |txt| - i, 1, 0
  {
    Rounds(x, txt, Ends(x, txt, i), i) + [i]
  }

  /** Around again after each of these rounds in turn, which began at i. */
  function Rounds(x: Regex, txt: Text, ms: seq<nat>, i: nat): (es: seq<nat>)
    requires i <= |txt| && Within(ms, i, txt)
    ensures Within(es, i, txt)
    decreases x, 2, |txt| - i, 0, |ms|
  {
    if ms == [] then []
    else (if ms[0] > i then LoopEnds(x, txt, ms[0]) else []) + Rounds(x, txt, ms[1..], i)
  }

  /** Every match of r reads something. */
  predicate Consumes(r: Regex) {
    match r
    case Leaf(a) => !a.Assert?
    case Cat(x, y) => Consumes(x) || Consumes(y)
    case Alt(x, y) => Consumes(x) && Consumes(y)
    case Plus(x) => Consumes(x)
    case Group(_, x) => Consumes(x)
    case _ => false
  }

  /** No loop goes around without reading anything. */
  predicate Progresses(r: Regex) {
    match r
    case Empty => true
    case Leaf(_) => true
    case Cat(x, y) => Progresses(x) && Progresses(y)
    case Alt(x, y) => Progresses(x) && Progresses(y)
    case Star(x) => Progresses(x) && Consumes(x)
    case Plus(x) => Progresses(x) && Consumes(x)
    case Opt(x) => Progresses(x)
    case Group(_, x) => Progresses(x)
  }

  lemma {:induction false} ConsumesEnds(r: Regex, txt: Text, i: nat)
    requires i <= |txt| && Consumes(r)
    ensures Within(Ends(r, txt, i), i + 1, txt)
    decreases r, 0, 0
  {
    match r
    case Leaf(_) =>
    case Cat(x, y) =>
      if Consumes(x) {
        ConsumesEnds(x, txt, i);
        EndsAfterFrom(y, txt, Ends(x, txt, i), i, i + 1);
      } else {
        ConsumesAfter(y, txt, Ends(x, txt, i), i);
      }
    case Alt(x, y) =>
      ConsumesEnds(x, txt, i);
      ConsumesEnds(y, txt, i);
    case Plus(x) => RoundsFrom(x, txt, Ends(x, txt, i), i);
    case Group(_, x) => ConsumesEnds(x, txt, i);
  }

  lemma {:induction false} EndsAfterFrom(y: Regex, txt: Text, ms: seq<nat>, i: nat, j: nat)
    requires Within(ms, i, txt) && Within(ms, j, txt)
    ensures Within(EndsAfter(y, txt, ms, i), j, txt)
    decreases |ms|
  {
    hide Ends;
    if ms != [] { EndsAfterFrom(y, txt, ms[1..], i, j); }
  }

  lemma {:induction false} ConsumesAfter(y: Regex, txt: Text, ms: seq<nat>, i: nat)
    requires Within(ms, i, txt) && Consumes(y)
    ensures Within(EndsAfter(y, txt, ms, i), i + 1, txt)
    decreases y, 1, |ms|
  {
    hide Ends;
    if ms != [] {
      ConsumesEnds(y, txt, ms[0]);
      ConsumesAfter(y, txt, ms[1..], i);
    }
  }

  lemma {:induction false} RoundsFrom(x: Regex, txt: Text, ms: seq<nat>, i: nat)
    requires i <= |txt| && Within(ms, i, txt)
    ensures Within(Rounds(x, txt, ms, i), i + 1, txt)
    decreases |ms|
  {
    hide Ends, LoopEnds;
    if ms != [] { RoundsFrom(x, txt, ms[1..], i); }
  }

  // ---- The ends are those of the matches --------------------------------------------------------------

  /** A repeated match is empty, or one match and then a repeated match. */
  lemma {:induction false} StarUnfold(x: Regex, txt: Text, i: nat, k: nat)
    requires i <= |txt| && k <= |txt|
    ensures Matches(Star(x), txt, i, k) <==>
      i == k || exists m: nat | m <= |txt| :: Matches(x, txt, i, m) && Matches(Star(x), txt, m, k)
    ensures Matches(Plus(x), txt, i, k) <==>
      exists m: nat | m <= |txt| :: Matches(x, txt, i, m) && Matches(Star(x), txt, m, k)
  {
    if m: nat :| m <= |txt| && Matches(x, txt, i, m) && Matches(Star(x), txt, m, k) {
      OneMore(x, txt, i, m, k);
    }
    if i == k { NoneMore(x, txt, i); }
    if Matches(Plus(x), txt, i, k) {
      var m, n := FirstOfMany(x, txt, i, k);
      assert Matches(Star(x), txt, m, k);
    }
    if Matches(Star(x), txt, i, k) && i != k {
      var n := StarRepeats(x, txt, i, k);
      assert n > 0;
      var m := FirstRepeat(x, txt, i, k, n);
      assert Matches(Star(x), txt, m, k);
    }
  }

  lemma {:induction false} AfterMatch(y: Regex, txt: Text, ms: seq<nat>, i: nat, k: nat)
    requires Within(ms, i, txt) && Progresses(y) && Supported(y)
    ensures k in EndsAfter(y, txt, ms, i) <==> k <= |txt| && exists m <- ms :: Matches(y, txt, m, k)
    decreases y, 1, |ms|, 0, 0
  {
    hide Ends, Matches;
    if ms != [] {
      EndsMatch(y, txt, ms[0], k);
      AfterMatch(y, txt, ms[1..], i, k);
      assert forall m <- ms :: m == ms[0] || m in ms[1..];
      assert ms[0] in ms && forall m <- ms[1..] :: m in ms;
    }
  }

  lemma {:induction false} LoopMatch(x: Regex, txt: Text, i: nat, k: nat)
    requires i <= |txt| && Progresses(x) && Consumes(x) && Supported(x)
    ensures k in LoopEnds(x, txt, i) <==> k <= |txt| && Matches(Star(x), txt, i, k)
    decreases x, 2, |txt| - i, 1, 0
  {
    hide Ends, Matches, Rounds;
    ConsumesEnds(x, txt, i);
    RoundsMatch(x, txt, Ends(x, txt, i), i, k);
    if k <= |txt| { StarUnfold(x, txt, i, k); }
    forall m: nat | m <= |txt| ensures m in Ends(x, txt, i) <==> Matches(x, txt, i, m) { EndsMatch(x, txt, i, m); }
  }

  lemma {:induction false} RoundsMatch(x: Regex, txt: Text, ms: seq<nat>, i: nat, k: nat)
    requires i <= |txt| && Within(ms, i, txt) && Within(ms, i + 1, txt)
    requires Progresses(x) && Consumes(x) && Supported(x)
    ensures k in Rounds(x, txt, ms, i) <==> k <= |txt| && exists m <- ms :: Matches(Star(x), txt, m, k)
    decreases x, 2, |txt| - i, 0, |ms|
  {
    hide Ends, Matches, LoopEnds;
    if ms != [] {
      LoopMatch(x, txt, ms[0], k);
      RoundsMatch(x, txt, ms[1..], i, k);
      assert forall m <- ms :: m == ms[0] || m in ms[1..];
      assert ms[0] in ms && forall m <- ms[1..] :: m in ms;
    }
  }

  /** Where no loop goes around without reading, the ends in order of preference are those of all matches. */
  lemma {:induction false} EndsMatch(r: Regex, txt: Text, i: nat, k: nat)
    requires i <= |txt| && Progresses(r) && Supported(r)
    ensures k in Ends(r, txt, i) <==> k <= |txt| && Matches(r, txt, i, k)
    decreases r, 0, 0, 0, 0
  {
    hide AtomReads, TestOk, Ends, EndsAfter, LoopEnds, Rounds, Repeats;
    UnfoldEnds(r, txt, i);
    match r
    case Empty =>
    case Leaf(_) =>
    case Cat(x, y) =>
      AfterMatch(y, txt, Ends(x, txt, i), i, k);
      forall m: nat | m <= |txt| ensures m in Ends(x, txt, i) <==> Matches(x, txt, i, m) { EndsMatch(x, txt, i, m); }
    case Alt(x, y) =>
      EndsMatch(x, txt, i, k);
      EndsMatch(y, txt, i, k);
    case Star(x) => LoopMatch(x, txt, i, k);
    case Plus(x) =>
      ConsumesEnds(x, txt, i);
      if k <= |txt| { StarUnfold(x, txt, i, k); }
      RoundsMatch(x, txt, Ends(x, txt, i), i, k);
      forall m: nat | m <= |txt| ensures m in Ends(x, txt, i) <==> Matches(x, txt, i, m) { EndsMatch(x, txt, i, m); }
    case Opt(x) => EndsMatch(x, txt, i, k);
    case Group(_, x) => EndsMatch(x, txt, i, k);
  }

  lemma {:induction false} UnfoldEnds(r: Regex, txt: Text, i: nat)
    requires i <= |txt|
    ensures Ends(r, txt, i) ==
      match r
      case Empty => [i]
      case Leaf(Assert(op)) => if TestOk(op, txt, i) then [i] else []
      case Leaf(a) => if i < |txt| && AtomReads(a, txt[i]) then [i + 1] else []
      case Cat(x, y) => EndsAfter(y, txt, Ends(x, txt, i), i)
      case Alt(x, y) => Ends(x, txt, i) + Ends(y, txt, i)
      case Star(x) => LoopEnds(x, txt, i)
      case Plus(x) => Rounds(x, txt, Ends(x, txt, i), i)
      case Opt(x) => Ends(x, txt, i) + [i]
      case Group(_, x) => Ends(x, txt, i)
  {
  }

  // ---- The code tries them in this order ----------------------------------------------------------------

  /** What is chosen from p when these positions are tried in turn. */
  ghost predicate PicksOf(code: Code, txt: Text, p: int, ms: seq<nat>, v: Choice)
    requires Within(ms, 0, txt)
  {
    if ms == [] then v == No
    else Either(Picks(code, txt, p, ms[0], v), Picks(code, txt, p, ms[0], No), PicksOf(code, txt, p, ms[1..], v), v)
  }

  lemma {:induction false} PicksOne(code: Code, txt: Text, p: int, i: nat, v: Choice)
    requires i <= |txt|
    ensures PicksOf(code, txt, p, [i], v) <==> Picks(code, txt, p, i, v)
  {
    hide Picks;
    assert [i][1..] == [];
    assert PicksOf(code, txt, p, [i][1..], v) <==> v == No;
  }

  lemma {:induction false} PicksJoin(code: Code, txt: Text, p: int, ms: seq<nat>, ns: seq<nat>, v: Choice)
    requires Within(ms, 0, txt) && Within(ns, 0, txt) && PicksOf(code, txt, p, ms + ns, v)
    ensures Either(PicksOf(code, txt, p, ms, v), PicksOf(code, txt, p, ms, No), PicksOf(code, txt, p, ns, v), v)
    decreases |ms|
  {
    hide Picks;
    if ms == [] {
      assert ms + ns == ns;
    } else {
      assert (ms + ns)[1..] == ms[1..] + ns;
      if !(v.Yes? && Picks(code, txt, p, ms[0], v)) { PicksJoin(code, txt, p, ms[1..], ns, v); }
    }
  }

  /** An instruction that only leads on. */
  lemma {:induction false} PicksOn(code: Code, txt: Text, p: int, t: int, ms: seq<nat>, v: Choice)
    requires Within(ms, 0, txt) && PicksOf(code, txt, t, ms, v)
    requires match Decode(code, p)
      case Mark => Next(code, p) == t
      case Jump(u) => u == t
      case StarJump(u) => u == t
      case _ => false
    ensures PicksOf(code, txt, p, ms, v)
    decreases |ms|
  {
    hide Decode, Next, Picks;
    if ms != [] {
      if v.Yes? && Picks(code, txt, t, ms[0], v) {
        PicksBack(code, txt, p, ms[0], v);
      } else {
        PicksBack(code, txt, p, ms[0], No);
        PicksOn(code, txt, p, t, ms[1..], v);
      }
    }
  }

  /** Where r's code stands, the choice is the one made after it from the ends of its matches in turn. */
  lemma {:induction false} EndsPicked(code: Code, r: Regex, b: int, txt: Text, i: nat, v: Choice)
    requires Placed(code, r, b) && |code| < 0x8000 && Supported(r) && Progresses(r) && i <= |txt|
    requires PicksOf(code, txt, b + Len(r), Ends(r, txt, i), v)
    ensures Picks(code, txt, b, i, v)
    decreases r, 1, 0, 0, 0
  {
    hide Decode, Next, Emit, CharOk, TestOk, Holds, Picks, AtomReads, Placed, Ends, EndsAfter, LoopEnds, PicksOf;
    UnfoldEnds(r, txt, i);
    Unfold(code, r, b);
    match r
    case Empty => PicksOne(code, txt, b, i, v);
    case Leaf(_) => LeafPicked(code, r, b, txt, i, v);
    case Cat(x, y) =>
      PlacedCat(code, x, y, b);
      AfterPicked(code, y, b + Len(x), txt, Ends(x, txt, i), i, v);
      EndsPicked(code, x, b, txt, i, v);
    case Alt(x, y) => AltPicked(code, r, b, txt, i, v);
    case Star(x) => LoopPicked(code, x, b, txt, i, v);
    case Plus(x) => PlusPicked(code, r, b, txt, i, v);
    case Opt(x) => OptPicked(code, r, b, txt, i, v);
    case Group(g, x) => GroupPicked(code, r, b, txt, i, v);
  }

  lemma {:induction false} LeafPicked(code: Code, r: Regex, b: int, txt: Text, i: nat, v: Choice)
    requires Placed(code, r, b) && |code| < 0x8000 && Supported(r) && r.Leaf? && i <= |txt|
    requires PicksOf(code, txt, b + Len(r), Ends(r, txt, i), v)
    ensures Picks(code, txt, b, i, v)
    decreases r, 0, 0, 0, 0
  {
    hide Decode, Next, Emit, CharOk, TestOk, Holds, Picks, AtomReads, Placed, PicksOf;
    Unfold(code, r, b);
    UnfoldEnds(r, txt, i);
    if Ends(r, txt, i) == [] {
      assert v == No by { PicksNone(code, txt, b + Len(r), v); }
    } else {
      PicksOne(code, txt, b + Len(r), Ends(r, txt, i)[0], v);
    }
    PicksBack(code, txt, b, i, v);
  }

  lemma {:induction false} PicksNone(code: Code, txt: Text, p: int, v: Choice)
    requires PicksOf(code, txt, p, [], v)
    ensures v == No
  {
  }

  /** Positions after each of which y's code is tried in turn. */
  lemma {:induction false} AfterPicked(code: Code, y: Regex, b: int, txt: Text, ms: seq<nat>, i: nat, v: Choice)
    requires Placed(code, y, b) && |code| < 0x8000 && Supported(y) && Progresses(y) && Within(ms, i, txt)
    requires PicksOf(code, txt, b + Len(y), EndsAfter(y, txt, ms, i), v)
    ensures PicksOf(code, txt, b, ms, v)
    decreases y, 2, |ms|, 0, 0
  {
    hide Picks, Ends, Placed;
    if ms != [] {
      var es, rest := Ends(y, txt, ms[0]), EndsAfter(y, txt, ms[1..], i);
      PicksJoin(code, txt, b + Len(y), es, rest, v);
      if v.Yes? && PicksOf(code, txt, b + Len(y), es, v) {
        EndsPicked(code, y, b, txt, ms[0], v);
      } else {
        EndsPicked(code, y, b, txt, ms[0], No);
        AfterPicked(code, y, b, txt, ms[1..], i, v);
      }
    }
  }

  lemma {:induction false} AltPicked(code: Code, r: Regex, b: int, txt: Text, i: nat, v: Choice)
    requires Placed(code, r, b) && |code| < 0x8000 && Supported(r) && Progresses(r) && r.Alt? && i <= |txt|
    requires PicksOf(code, txt, b + Len(r), Ends(r, txt, i), v)
    ensures Picks(code, txt, b, i, v)
    decreases r, 0, 0, 0, 0
  {
    hide Decode, Emit, Placed, Picks, PicksOf, Ends, Supported, Len;
    AltShape(code, r, b);
    UnfoldEnds(r, txt, i);
    var x, y := r.left, r.right;
    var c, d := b + 3 + Len(x), b + 6 + Len(x);
    PicksJoin(code, txt, b + Len(r), Ends(x, txt, i), Ends(y, txt, i), v);
    if v.Yes? && PicksOf(code, txt, b + Len(r), Ends(x, txt, i), v) {
      PicksOn(code, txt, c, b + Len(r), Ends(x, txt, i), v);
      EndsPicked(code, x, b + 3, txt, i, v);
    } else {
      PicksOn(code, txt, c, b + Len(r), Ends(x, txt, i), No);
      EndsPicked(code, x, b + 3, txt, i, No);
      EndsPicked(code, y, d, txt, i, v);
    }
    PicksBack(code, txt, b, i, v);
  }

  lemma {:induction false} LoopPicked(code: Code, x: Regex, s: int, txt: Text, i: nat, v: Choice)
    requires Placed(code, x, s + 3) && |code| < 0x8000 && Supported(x) && Progresses(x) && Consumes(x) && i <= |txt|
    requires Decode(code, s) == FailJump(s + 6 + Len(x)) && Decode(code, s + 3 + Len(x)) == StarJump(s)
    requires PicksOf(code, txt, s + 6 + Len(x), LoopEnds(x, txt, i), v)
    ensures Picks(code, txt, s, i, v)
    decreases x, 3, |txt| - i, 1, 0
  {
    hide Decode, Placed, Picks, PicksOf, Ends, Rounds, Supported, Progresses, Consumes, Len;
    var ms, exit := Ends(x, txt, i), s + 6 + Len(x);
    ConsumesEnds(x, txt, i);
    PicksJoin(code, txt, exit, Rounds(x, txt, ms, i), [i], v);
    if v.Yes? && PicksOf(code, txt, exit, Rounds(x, txt, ms, i), v) {
      RoundsPicked(code, x, s, txt, ms, i, v);
      EndsPicked(code, x, s + 3, txt, i, v);
    } else {
      RoundsPicked(code, x, s, txt, ms, i, No);
      EndsPicked(code, x, s + 3, txt, i, No);
      PicksOne(code, txt, exit, i, v);
    }
    PicksBack(code, txt, s, i, v);
  }

  lemma {:induction false} RoundsPicked(code: Code, x: Regex, s: int, txt: Text, ms: seq<nat>, i: nat, v: Choice)
    requires Placed(code, x, s + 3) && |code| < 0x8000 && Supported(x) && Progresses(x) && Consumes(x) && i <= |txt|
    requires Decode(code, s) == FailJump(s + 6 + Len(x)) && Decode(code, s + 3 + Len(x)) == StarJump(s)
    requires Within(ms, i, txt) && Within(ms, i + 1, txt)
    requires PicksOf(code, txt, s + 6 + Len(x), Rounds(x, txt, ms, i), v)
    ensures PicksOf(code, txt, s + 3 + Len(x), ms, v)
    decreases x, 3, |txt| - i, 0, |ms|
  {
    hide Decode, Placed, Picks, Ends, LoopEnds, PicksOf, Rounds, Supported, Progresses, Consumes, Len;
    if ms == [] {
      NoRounds(code, x, s, txt, i, v);
    } else {
      var exit, q, es, rest := s + 6 + Len(x), s + 3 + Len(x), LoopEnds(x, txt, ms[0]), Rounds(x, txt, ms[1..], i);
      NextRound(x, txt, ms, i);
      PicksNext(code, txt, q, ms, v);
      PicksJoin(code, txt, exit, es, rest, v);
      if v.Yes? && PicksOf(code, txt, exit, es, v) {
        LoopPicked(code, x, s, txt, ms[0], v);
        PicksBack(code, txt, q, ms[0], v);
      } else {
        LoopPicked(code, x, s, txt, ms[0], No);
        PicksBack(code, txt, q, ms[0], No);
        RoundsPicked(code, x, s, txt, ms[1..], i, v);
      }
    }
  }

  lemma {:induction false} NextRound(x: Regex, txt: Text, ms: seq<nat>, i: nat)
    requires i <= |txt| && Within(ms, i, txt) && Within(ms, i + 1, txt) && ms != []
    ensures Rounds(x, txt, ms, i) == LoopEnds(x, txt, ms[0]) + Rounds(x, txt, ms[1..], i)
  {
    hide LoopEnds;
  }

  lemma {:induction false} NoRounds(code: Code, x: Regex, s: int, txt: Text, i: nat, v: Choice)
    requires i <= |txt| && PicksOf(code, txt, s + 6 + Len(x), Rounds(x, txt, [], i), v)
    ensures PicksOf(code, txt, s + 3 + Len(x), [], v)
  {
    hide Picks, Len;
  }

  lemma {:induction false} PicksNext(code: Code, txt: Text, p: int, ms: seq<nat>, v: Choice)
    requires Within(ms, 0, txt) && ms != []
    ensures PicksOf(code, txt, p, ms, v) <==>
      Either(Picks(code, txt, p, ms[0], v), Picks(code, txt, p, ms[0], No), PicksOf(code, txt, p, ms[1..], v), v)
  {
    hide Picks, Either;
  }

  lemma {:induction false} PlusPicked(code: Code, r: Regex, b: int, txt: Text, i: nat, v: Choice)
    requires Placed(code, r, b) && |code| < 0x8000 && Supported(r) && Progresses(r) && r.Plus? && i <= |txt|
    requires PicksOf(code, txt, b + Len(r), Ends(r, txt, i), v)
    ensures Picks(code, txt, b, i, v)
    decreases r, 0, 0, 0, 0
  {
    hide Decode, Next, Emit, Holds, Picks, Placed, Ends, Rounds, PicksOf;
    UnfoldEnds(r, txt, i);
    Unfold(code, r, b);
    ConsumesEnds(r.body, txt, i);
    RoundsPicked(code, r.body, b + 3, txt, Ends(r.body, txt, i), i, v);
    EndsPicked(code, r.body, b + 6, txt, i, v);
    PicksBack(code, txt, b, i, v);
  }

  lemma {:induction false} OptPicked(code: Code, r: Regex, b: int, txt: Text, i: nat, v: Choice)
    requires Placed(code, r, b) && |code| < 0x8000 && Supported(r) && Progresses(r) && r.Opt? && i <= |txt|
    requires PicksOf(code, txt, b + Len(r), Ends(r, txt, i), v)
    ensures Picks(code, txt, b, i, v)
    decreases r, 0, 0, 0, 0
  {
    hide Decode, Next, Emit, Holds, Picks, Placed, Ends, PicksOf;
    UnfoldEnds(r, txt, i);
    Unfold(code, r, b);
    var es := Ends(r.body, txt, i);
    PicksJoin(code, txt, b + Len(r), es, [i], v);
    if v.Yes? && PicksOf(code, txt, b + Len(r), es, v) {
      EndsPicked(code, r.body, b + 3, txt, i, v);
    } else {
      EndsPicked(code, r.body, b + 3, txt, i, No);
      PicksOne(code, txt, b + Len(r), i, v);
    }
    PicksBack(code, txt, b, i, v);
  }

  lemma {:induction false} GroupPicked(code: Code, r: Regex, b: int, txt: Text, i: nat, v: Choice)
    requires Placed(code, r, b) && |code| < 0x8000 && Supported(r) && Progresses(r) && r.Group? && i <= |txt|
    requires PicksOf(code, txt, b + Len(r), Ends(r, txt, i), v)
    ensures Picks(code, txt, b, i, v)
    decreases r, 0, 0, 0, 0
  {
    hide Decode, Next, Emit, Holds, Picks, Placed, Ends, PicksOf;
    UnfoldEnds(r, txt, i);
    Unfold(code, r, b);
    if r.reg == 0 {
      EndsPicked(code, r.body, b, txt, i, v);
    } else {
      PicksOn(code, txt, b + 2 + Len(r.body), b + Len(r), Ends(r.body, txt, i), v);
      EndsPicked(code, r.body, b + 2, txt, i, v);
      PicksBack(code, txt, b, i, v);
    }
  }

  // ---- The matcher's answer -------------------------------------------------------------------------------

  lemma {:induction false} FirstPicked(code: Code, txt: Text, p: int, ms: seq<nat>)
    requires Within(ms, 0, txt) && Decode(code, p).End?
    ensures PicksOf(code, txt, p, ms, if ms == [] then No else Yes(ms[0]))
  {
    hide Decode, Picks;
    if ms != [] { PicksBack(code, txt, p, ms[0], Yes(ms[0])); }
  }

  lemma {:induction false} ProgramPicks(r: Regex, txt: Text, i: nat)
    requires Supported(r) && Small(r) && Progresses(r) && i <= |txt|
    ensures var es := Ends(r, txt, i);
      Picks(Program(r), txt, 0, i, if es == [] then No else Yes(es[0]))
  {
    hide Decode, Picks, Placed, Ends, PicksOf;
    var code, es := Program(r), Ends(r, txt, i);
    ProgramPlaced(r);
    FirstPicked(code, txt, Len(r), es);
    EndsPicked(code, r, 0, txt, i, if es == [] then No else Yes(es[0]));
  }

  /** A match the matcher reports is the first in the order of preference, and when it reports none there is
      none: for safe expressions whose loops read something, on programs that earlier runs have rewritten as
      on fresh ones. */
  lemma {:induction false} FirstPreference(r: Regex, now: Code, txt: Text, pos: nat, n: nat, o: Outcome, later: Code)
    requires Supported(r) && Small(r) && Variant(Program(r), Boundaries(r), now) && pos <= |txt|
    requires Safe(r) && Progresses(r) && RunsTo(true, Initial(now, pos), txt, n, o, later)
    ensures var es := Ends(r, txt, pos);
      && (o.Matched? ==> es != [] && o.end == es[0])
      && (o == NoMatch ==> es == [])
  {
    hide Program, Boundaries, Variant, WellFormed, LoopsSafe, RunsTo, Inv, Picks, Supported, Ends;
    var code, bounds, s := Program(r), Boundaries(r), Initial(now, pos);
    ProgramWellFormed(r);
    InitialInv(code, bounds, now, pos, txt);
    ProgramPicks(r, txt, pos);
    var es := Ends(r, txt, pos);
    var v := if es == [] then No else Yes(es[0]);
    StartPicks(code, now, pos, txt, v);
    RunPicks(code, bounds, true, s, txt, v, n, o, later);
  }

  lemma {:induction false} StartPicks(code: Code, now: Code, pos: nat, txt: Text, v: Choice)
    requires pos <= |txt| && Picks(code, txt, 0, pos, v)
    ensures StatePicks(code, Initial(now, pos), txt, v)
  {
    hide Picks;
    assert StackPicks(code, [], txt, No);
  }
}
