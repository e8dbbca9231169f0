/** The code of a regular expression accepts exactly what the expression matches. */
module RegexMeaning {
  import opened RegexCode
  import opened RegexAst
  import opened RegexWellFormed

  /** One step from p at text position i leads to acceptance at k. */
  ghost predicate StepAccepts(code: Code, txt: Text, p: int, i: nat, k: nat)
    requires i <= |txt|
  {
    match Decode(code, p)
    case End => i == k
    case Read => i < |txt| && CharOk(code, p, txt[i]) && Accepts(code, txt, Next(code, p), i + 1, k)
    case Test(op) => TestOk(op, txt, i) && Accepts(code, txt, Next(code, p), i, k)
    case Mark => Accepts(code, txt, Next(code, p), i, k)
    case FailJump(t) => Accepts(code, txt, p + 3, i, k) || Accepts(code, txt, t, i, k)
    case Bad => false
    case j => Accepts(code, txt, j.target, i, k)
  }

  lemma {:induction false} AcceptsBack(code: Code, txt: Text, p: int, i: nat, k: nat)
    requires i <= |txt| && StepAccepts(code, txt, p, i, k)
    ensures Accepts(code, txt, p, i, k)
  {
    hide Decode, Next, CharOk, TestOk;
    var q, j := p, i;
    match Decode(code, p) {
      case End => assert AcceptsIn(code, txt, p, i, k, 0); return;
      case Read => q, j := Next(code, p), i + 1;
      case Test(op) => q := Next(code, p);
      case Mark => q := Next(code, p);
      case FailJump(t) => q := if Accepts(code, txt, p + 3, i, k) then p + 3 else t;
      case Bad =>
      case jump => q := Decode(code, p).target;
    }
    var n: nat :| AcceptsIn(code, txt, q, j, k, n);
    assert AcceptsIn(code, txt, p, i, k, n + 1);
  }

  /** Acceptance is one step and acceptance after it. */
  lemma {:induction false} AcceptsStep(code: Code, txt: Text, p: int, i: nat, k: nat)
    requires i <= |txt|
    ensures Accepts(code, txt, p, i, k) <==> StepAccepts(code, txt, p, i, k)
  {
    hide Decode, Next, CharOk, TestOk;
    if StepAccepts(code, txt, p, i, k) { AcceptsBack(code, txt, p, i, k); }
    if Accepts(code, txt, p, i, k) {
      var n: nat :| AcceptsIn(code, txt, p, i, k, n);
      match Decode(code, p)
      case End =>
      case Read => assert AcceptsIn(code, txt, Next(code, p), i + 1, k, n - 1);
      case Test(_) => assert AcceptsIn(code, txt, Next(code, p), i, k, n - 1);
      case Mark => assert AcceptsIn(code, txt, Next(code, p), i, k, n - 1);
      case FailJump(t) =>
        assert AcceptsIn(code, txt, p + 3, i, k, n - 1) || AcceptsIn(code, txt, t, i, k, n - 1);
      case Jump(t) => assert AcceptsIn(code, txt, t, i, k, n - 1);
      case StarJump(t) => assert AcceptsIn(code, txt, t, i, k, n - 1);
      case UpdateJump(t) => assert AcceptsIn(code, txt, t, i, k, n - 1);
      case DummyJump(t) => assert AcceptsIn(code, txt, t, i, k, n - 1);
    }
  }

  lemma {:induction false} StarRepeats(x: Regex, txt: Text, i: nat, m: nat) returns (n: nat)
    requires i <= |txt| && m <= |txt| && Matches(Star(x), txt, i, m)
    ensures Repeats(x, txt, i, m, n)
  {
    n :| Repeats(x, txt, i, m, n);
  }

  lemma {:induction false} FirstRepeat(x: Regex, txt: Text, i: nat, j: nat, n: nat) returns (m: nat)
    requires i <= |txt| && j <= |txt| && n > 0 && Repeats(x, txt, i, j, n)
    ensures m <= |txt| && Matches(x, txt, i, m) && Repeats(x, txt, m, j, n - 1)
  {
    m :| m <= |txt| && Matches(x, txt, i, m) && Repeats(x, txt, m, j, n - 1);
  }

  lemma {:induction false} FirstOfMany(x: Regex, txt: Text, i: nat, j: nat) returns (m: nat, n: nat)
    requires i <= |txt| && j <= |txt| && Matches(Plus(x), txt, i, j)
    ensures m <= |txt| && Matches(x, txt, i, m) && Repeats(x, txt, m, j, n)
  {
    var count: nat :| count > 0 && Repeats(x, txt, i, j, count);
    n := count - 1;
    m := FirstRepeat(x, txt, i, j, count);
  }

  /** What r matches, followed by acceptance after r's code, is accepted from r's code. */
  lemma {:induction false} MatchAccepted(code: Code, r: Regex, b: int, txt: Text, i: nat, j: nat, k: nat)
    requires Placed(code, r, b) && |code| < 0x8000 && Supported(r)
    requires i <= |txt| && j <= |txt| && Matches(r, txt, i, j)
    requires Accepts(code, txt, b + Len(r), j, k)
    ensures Accepts(code, txt, b, i, k)
    decreases r, 1
  {
    hide Decode, Next, Emit, CharOk, TestOk, Holds, Accepts, AtomReads, Repeats, Placed, Unfolded;
    match r
    case Empty =>
    case Leaf(_) => SmallAccepted(code, r, b, txt, i, j, k);
    case Cat(x, y) =>
      Unfold(code, r, b);
      PlacedCat(code, x, y, b);
      var m: nat :| m <= |txt| && Matches(x, txt, i, m) && Matches(y, txt, m, j);
      MatchAccepted(code, y, b + Len(x), txt, m, j, k);
      MatchAccepted(code, x, b, txt, i, m, k);
    case Alt(_, _) => AltAccepted(code, r, b, txt, i, j, k);
    case Star(x) => StarAccepted(code, r, b, txt, i, j, k);
    case Plus(x) => DummyAccepted(code, r, b, txt, i, j, k);
    case Opt(_) => SmallAccepted(code, r, b, txt, i, j, k);
    case Group(_, _) => SmallAccepted(code, r, b, txt, i, j, k);
  }

  lemma {:induction false} PlacedCat(code: Code, x: Regex, y: Regex, b: int)
    requires Unfolded(code, Cat(x, y), b)
    ensures Placed(code, x, b) && Placed(code, y, b + Len(x))
  {
    hide Placed, Decode, Next, Len;
  }

  lemma {:induction false} AltAccepted(code: Code, r: Regex, b: int, txt: Text, i: nat, j: nat, k: nat)
    requires Placed(code, r, b) && |code| < 0x8000 && Supported(r) && r.Alt?
    requires i <= |txt| && j <= |txt| && Matches(r, txt, i, j)
    requires Accepts(code, txt, b + Len(r), j, k)
    ensures Accepts(code, txt, b, i, k)
    decreases r, 0
  {
    hide Decode, Next, Emit, CharOk, TestOk, Holds, Accepts, AtomReads, Repeats, Placed;
    Unfold(code, r, b);
    var x, y := r.left, r.right;
    if Matches(x, txt, i, j) {
      AcceptsBack(code, txt, b + 3 + Len(x), j, k);
      MatchAccepted(code, x, b + 3, txt, i, j, k);
    } else {
      MatchAccepted(code, y, b + 6 + Len(x), txt, i, j, k);
    }
    AcceptsBack(code, txt, b, i, k);
  }

  lemma {:induction false} StarAccepted(code: Code, r: Regex, b: int, txt: Text, i: nat, j: nat, k: nat)
    requires Placed(code, r, b) && |code| < 0x8000 && Supported(r) && r.Star?
    requires i <= |txt| && j <= |txt| && Matches(r, txt, i, j)
    requires Accepts(code, txt, b + Len(r), j, k)
    ensures Accepts(code, txt, b, i, k)
    decreases r, 0
  {
    hide Decode, Next, Emit, CharOk, TestOk, Holds, Accepts, AtomReads, Repeats, Placed, Matches;
    Unfold(code, r, b);
    var n := StarRepeats(r.body, txt, i, j);
    RepeatsAccepted(code, r.body, b, txt, i, j, k, n);
  }

  lemma {:induction false} DummyAccepted(code: Code, r: Regex, b: int, txt: Text, i: nat, j: nat, k: nat)
    requires Placed(code, r, b) && |code| < 0x8000 && Supported(r) && r.Plus?
    requires i <= |txt| && j <= |txt| && Matches(r, txt, i, j)
    requires Accepts(code, txt, b + Len(r), j, k)
    ensures Accepts(code, txt, b, i, k)
    decreases r, 0
  {
    hide Decode, Next, Emit, CharOk, TestOk, Holds, Accepts, AtomReads, Repeats, Placed, Matches;
    Unfold(code, r, b);
    PlusAccepted(code, r.body, b + 3, txt, i, j, k);
    AcceptsBack(code, txt, b, i, k);
  }

  lemma {:induction false} SmallAccepted(code: Code, r: Regex, b: int, txt: Text, i: nat, j: nat, k: nat)
    requires Placed(code, r, b) && |code| < 0x8000 && Supported(r) && (r.Leaf? || r.Opt? || r.Group?)
    requires i <= |txt| && j <= |txt| && Matches(r, txt, i, j)
    requires Accepts(code, txt, b + Len(r), j, k)
    ensures Accepts(code, txt, b, i, k)
    decreases r, 0
  {
    hide Decode, Next, Emit, CharOk, TestOk, Holds, Accepts, AtomReads, Repeats, Placed;
    Unfold(code, r, b);
    match r
    case Leaf(_) => AcceptsBack(code, txt, b, i, k);
    case Opt(x) =>
      if i != j { MatchAccepted(code, x, b + 3, txt, i, j, k); }
      AcceptsBack(code, txt, b, i, k);
    case Group(g, x) =>
      if g == 0 { MatchAccepted(code, x, b, txt, i, j, k); }
      else {
        AcceptsBack(code, txt, b + 2 + Len(x), j, k);
        MatchAccepted(code, x, b + 2, txt, i, j, k);
        AcceptsBack(code, txt, b, i, k);
      }
  }

  lemma {:induction false} PlusAccepted(code: Code, x: Regex, s: int, txt: Text, i: nat, j: nat, k: nat)
    requires Placed(code, x, s + 3) && |code| < 0x8000 && Supported(x)
    requires Decode(code, s) == FailJump(s + 6 + Len(x)) && Decode(code, s + 3 + Len(x)) == StarJump(s)
    requires i <= |txt| && j <= |txt| && Matches(Plus(x), txt, i, j)
    requires Accepts(code, txt, s + 6 + Len(x), j, k)
    ensures Accepts(code, txt, s + 3, i, k)
    decreases x, 3
  {
    hide Decode, Next, Emit, CharOk, TestOk, Holds, Accepts, Matches;
    var m, n := FirstOfMany(x, txt, i, j);
    RepeatsAccepted(code, x, s, txt, m, j, k, n);
    AcceptsBack(code, txt, s + 3 + Len(x), m, k);
    MatchAccepted(code, x, s + 3, txt, i, m, k);
  }

  lemma {:induction false} RepeatsAccepted(code: Code, x: Regex, s: int, txt: Text, i: nat, j: nat, k: nat, n: nat)
    requires Placed(code, x, s + 3) && |code| < 0x8000 && Supported(x)
    requires Decode(code, s) == FailJump(s + 6 + Len(x)) && Decode(code, s + 3 + Len(x)) == StarJump(s)
    requires i <= |txt| && j <= |txt| && Repeats(x, txt, i, j, n)
    requires Accepts(code, txt, s + 6 + Len(x), j, k)
    ensures Accepts(code, txt, s, i, k)
    decreases x, 2, n
  {
    hide Decode, Next, Emit, CharOk, TestOk, Holds, Accepts, Placed, Matches;
    if n > 0 {
      var m: nat :| m <= |txt| && Matches(x, txt, i, m) && Repeats(x, txt, m, j, n - 1);
      RepeatsAccepted(code, x, s, txt, m, j, k, n - 1);
      AcceptsBack(code, txt, s + 3 + Len(x), m, k);
      MatchAccepted(code, x, s + 3, txt, i, m, k);
    }
    AcceptsBack(code, txt, s, i, k);
  }

  /** Acceptance from r's code splits into a match of r and acceptance after r's code. */
  lemma {:induction false} AcceptedMatches(code: Code, r: Regex, b: int, txt: Text, i: nat, k: nat, n: nat)
    returns (j: nat, m: nat)
    requires Placed(code, r, b) && |code| < 0x8000 && Supported(r)
    requires i <= |txt| && AcceptsIn(code, txt, b, i, k, n)
    ensures j <= |txt| && m <= n && Matches(r, txt, i, j) && AcceptsIn(code, txt, b + Len(r), j, k, m)
    decreases n, r, 1
  {
    hide Decode, Next, Emit, CharOk, TestOk, Holds, AtomReads, AcceptsIn, Placed;
    match r
    case Empty => j, m := i, n;
    case Leaf(_) => j, m := LeafMatches(code, r, b, txt, i, k, n);
    case Cat(x, y) =>
      Unfold(code, r, b);
      var j1, m1 := AcceptedMatches(code, x, b, txt, i, k, n);
      j, m := AcceptedMatches(code, y, b + Len(x), txt, j1, k, m1);
    case Alt(_, _) => j, m := AltMatches(code, r, b, txt, i, k, n);
    case Star(x) =>
      Unfold(code, r, b);
      j, m := LoopMatches(code, x, b, txt, i, k, n);
    case Plus(_) => j, m := PlusMatches(code, r, b, txt, i, k, n);
    case Opt(_) => j, m := OptMatches(code, r, b, txt, i, k, n);
    case Group(_, _) => j, m := GroupMatches(code, r, b, txt, i, k, n);
  }

  lemma {:induction false} LeafMatches(code: Code, r: Regex, b: int, txt: Text, i: nat, k: nat, n: nat)
    returns (j: nat, m: nat)
    requires Placed(code, r, b) && |code| < 0x8000 && Supported(r)
    requires i <= |txt| && AcceptsIn(code, txt, b, i, k, n) && r.Leaf?
    ensures j <= |txt| && m <= n && Matches(r, txt, i, j) && AcceptsIn(code, txt, b + Len(r), j, k, m)
    decreases n, r, 0
  {
    hide Decode, Emit, CharOk, TestOk, Holds, AtomReads, Placed;
    Unfold(code, r, b);
    m := n - 1;
    j := if r.a.Assert? then i else i + 1;
  }

  lemma {:induction false} ForkIn(code: Code, txt: Text, p: int, i: nat, k: nat, n: nat)
    requires i <= |txt| && Decode(code, p).FailJump? && AcceptsIn(code, txt, p, i, k, n)
    ensures n > 0 && (AcceptsIn(code, txt, p + 3, i, k, n - 1)
      || AcceptsIn(code, txt, Decode(code, p).target, i, k, n - 1))
  {
    hide Decode;
  }

  lemma {:induction false} JumpIn(code: Code, txt: Text, p: int, i: nat, k: nat, n: nat)
    requires i <= |txt| && AcceptsIn(code, txt, p, i, k, n) && (Decode(code, p).Jump? || Decode(code, p).StarJump?)
    ensures n > 0 && AcceptsIn(code, txt, Decode(code, p).target, i, k, n - 1)
  {
    hide Decode;
  }

  lemma {:induction false} EitherMatches(r: Regex, txt: Text, i: nat, j: nat)
    requires r.Alt? && i <= |txt| && j <= |txt| && (Matches(r.left, txt, i, j) || Matches(r.right, txt, i, j))
    ensures Matches(r, txt, i, j)
  {
  }

  lemma {:induction false} AltShape(code: Code, r: Regex, b: int)
    requires Placed(code, r, b) && |code| < 0x8000 && Supported(r) && r.Alt?
    ensures Placed(code, r.left, b + 3) && Placed(code, r.right, b + 6 + Len(r.left))
    ensures Supported(r.left) && Supported(r.right) && Len(r) == 6 + Len(r.left) + Len(r.right)
    ensures Decode(code, b) == FailJump(b + 6 + Len(r.left)) && Decode(code, b + 3 + Len(r.left)) == Jump(b + Len(r))
  {
    hide Decode, Next, Emit, Holds, Placed, CharOk;
    Unfold(code, r, b);
  }

  lemma {:induction false} AltMatches(code: Code, r: Regex, b: int, txt: Text, i: nat, k: nat, n: nat)
    returns (j: nat, m: nat)
    requires Placed(code, r, b) && |code| < 0x8000 && Supported(r)
    requires i <= |txt| && AcceptsIn(code, txt, b, i, k, n) && r.Alt?
    ensures j <= |txt| && m <= n && Matches(r, txt, i, j) && AcceptsIn(code, txt, b + Len(r), j, k, m)
    decreases n, r, 0
  {
    hide Decode, Emit, Placed, AcceptsIn, Matches, Supported, Len;
    AltShape(code, r, b);
    ForkIn(code, txt, b, i, k, n);
    if AcceptsIn(code, txt, b + 3, i, k, n - 1) {
      j, m := AcceptedMatches(code, r.left, b + 3, txt, i, k, n - 1);
      JumpIn(code, txt, b + 3 + Len(r.left), j, k, m);
      m := m - 1;
    } else {
      j, m := AcceptedMatches(code, r.right, b + 6 + Len(r.left), txt, i, k, n - 1);
    }
    EitherMatches(r, txt, i, j);
  }

  lemma {:induction false} PlusMatches(code: Code, r: Regex, b: int, txt: Text, i: nat, k: nat, n: nat)
    returns (j: nat, m: nat)
    requires Placed(code, r, b) && |code| < 0x8000 && Supported(r)
    requires i <= |txt| && AcceptsIn(code, txt, b, i, k, n) && r.Plus?
    ensures j <= |txt| && m <= n && Matches(r, txt, i, j) && AcceptsIn(code, txt, b + Len(r), j, k, m)
    decreases n, r, 0
  {
    hide Decode, Next, Emit, CharOk, TestOk, Holds, AtomReads, Placed;
    Unfold(code, r, b);
    var x := r.body;
    var j1, m1 := AcceptedMatches(code, x, b + 6, txt, i, k, n - 1);
    j, m := LoopMatches(code, x, b + 3, txt, j1, k, m1 - 1);
    OneMore(x, txt, i, j1, j);
  }

  lemma {:induction false} OptMatches(code: Code, r: Regex, b: int, txt: Text, i: nat, k: nat, n: nat)
    returns (j: nat, m: nat)
    requires Placed(code, r, b) && |code| < 0x8000 && Supported(r)
    requires i <= |txt| && AcceptsIn(code, txt, b, i, k, n) && r.Opt?
    ensures j <= |txt| && m <= n && Matches(r, txt, i, j) && AcceptsIn(code, txt, b + Len(r), j, k, m)
    decreases n, r, 0
  {
    hide Decode, Next, Emit, CharOk, TestOk, Holds, AtomReads, Placed;
    Unfold(code, r, b);
    if AcceptsIn(code, txt, b + 3, i, k, n - 1) {
      j, m := AcceptedMatches(code, r.body, b + 3, txt, i, k, n - 1);
    } else {
      j, m := i, n - 1;
    }
  }

  lemma {:induction false} GroupMatches(code: Code, r: Regex, b: int, txt: Text, i: nat, k: nat, n: nat)
    returns (j: nat, m: nat)
    requires Placed(code, r, b) && |code| < 0x8000 && Supported(r)
    requires i <= |txt| && AcceptsIn(code, txt, b, i, k, n) && r.Group?
    ensures j <= |txt| && m <= n && Matches(r, txt, i, j) && AcceptsIn(code, txt, b + Len(r), j, k, m)
    decreases n, r, 0
  {
    hide Decode, Next, Emit, CharOk, TestOk, Holds, AtomReads, Placed;
    Unfold(code, r, b);
    if r.reg == 0 { j, m := AcceptedMatches(code, r.body, b, txt, i, k, n); }
    else {
      j, m := AcceptedMatches(code, r.body, b + 2, txt, i, k, n - 1);
      m := m - 1;
    }
  }

  lemma {:induction false} LoopMatches(code: Code, x: Regex, s: int, txt: Text, i: nat, k: nat, n: nat)
    returns (j: nat, m: nat)
    requires Placed(code, x, s + 3) && |code| < 0x8000 && Supported(x)
    requires Decode(code, s) == FailJump(s + 6 + Len(x)) && Decode(code, s + 3 + Len(x)) == StarJump(s)
    requires i <= |txt| && AcceptsIn(code, txt, s, i, k, n)
    ensures j <= |txt| && m <= n && Matches(Star(x), txt, i, j) && AcceptsIn(code, txt, s + 6 + Len(x), j, k, m)
    decreases n, x, 2
  {
    hide Decode, Emit, Placed, Supported, Len, Matches, AcceptsIn;
    ForkIn(code, txt, s, i, k, n);
    if AcceptsIn(code, txt, s + 3, i, k, n - 1) {
      var j1, m1 := AcceptedMatches(code, x, s + 3, txt, i, k, n - 1);
      JumpIn(code, txt, s + 3 + Len(x), j1, k, m1);
      j, m := LoopMatches(code, x, s, txt, j1, k, m1 - 1);
      OneMore(x, txt, i, j1, j);
    } else {
      j, m := i, n - 1;
      NoneMore(x, txt, i);
    }
  }

  lemma {:induction false} NoneMore(x: Regex, txt: Text, i: nat)
    requires i <= |txt|
    ensures Matches(Star(x), txt, i, i)
  {
    assert Repeats(x, txt, i, i, 0);
  }

  lemma {:induction false} OneMore(x: Regex, txt: Text, i: nat, m: nat, j: nat)
    requires i <= |txt| && m <= |txt| && j <= |txt|
    requires Matches(x, txt, i, m) && Matches(Star(x), txt, m, j)
    ensures Matches(Star(x), txt, i, j) && Matches(Plus(x), txt, i, j)
  {
    var n: nat :| Repeats(x, txt, m, j, n);
    assert Repeats(x, txt, i, j, n + 1);
  }

  /** Compiling preserves meaning: from its first instruction, the program reaches Cend at text
      position k exactly when r matches txt[i..k]. */
  lemma {:induction false} ProgramMeaning(r: Regex, txt: Text, i: nat, k: nat)
    requires Supported(r) && Small(r) && i <= |txt|
    ensures Accepts(Program(r), txt, 0, i, k) <==> k <= |txt| && Matches(r, txt, i, k)
  {
    hide Decode, Next, Emit, CharOk, TestOk, Holds, Matches;
    var code := Program(r);
    ProgramPlaced(r);
    if k <= |txt| && Matches(r, txt, i, k) {
      AcceptsBack(code, txt, Len(r), k, k);
      MatchAccepted(code, r, 0, txt, i, k, k);
    }
    if Accepts(code, txt, 0, i, k) {
      var n: nat :| AcceptsIn(code, txt, 0, i, k, n);
      var j, m := AcceptedMatches(code, r, 0, txt, i, k, n);
    }
  }
}
