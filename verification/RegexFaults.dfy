/** Which patterns are refused, and why: parentheses that do not match, operators out of place, too much
    nesting, and text that ends inside a token. */
module RegexFaults {
  import Basics
  import opened RegexCode
  import opened RegexAst
  import opened RegexSyntax
  import opened RegexNotation
  import opened RegexSpelling
  import opened RegexReading

  // ---- The first fault --------------------------------------------------------------------------------

  function Sum(ns: seq<nat>): nat {
    if ns == [] then 0 else Sum(ns[..|ns| - 1]) + ns[|ns| - 1]
  }

  /** The first fault of tokens, counting the bars still pending in each open group and in the current one.
      No more than 99 groups may be open, and no more than 100 bars pending. */
  function Fault(syn: Syntax, ts: seq<Tok>, begins: bool, open: seq<nat>, bars: nat): Basics.Option<Error>
    decreases |ts|
  {
    if ts == [] then if open == [] then Basics.None else Basics.Some(ParenthesisError)
    else
      var rest, next := ts[1..], ts[0] == TOpen || ts[0] == TOr;
      match InContext(syn, ts, begins)
      case Err(e) => Basics.Some(e)
      case Ok(TOr) =>
        if Sum(open) + bars >= 100 then Basics.Some(TooComplex) else Fault(syn, rest, next, open, bars + 1)
      case Ok(TOpen) => if |open| >= 99 then Basics.Some(TooComplex) else Fault(syn, rest, next, open + [bars], 0)
      case Ok(TClose) =>
        if open == [] then Basics.Some(ParenthesisError)
        else Fault(syn, rest, next, open[..|open| - 1], open[|open| - 1])
      case Ok(TLow(_)) => Fault(syn, rest, next, open, if syn.tightVbar then 0 else bars)
      case Ok(_) => Fault(syn, rest, next, open, bars)
  }

  /** The bars pending in the enclosing groups. */
  function Counts(outer: seq<(Frame, Byte)>): (ns: seq<nat>)
    ensures |ns| == |outer|
  {
    if outer == [] then [] else Counts(outer[..|outer| - 1]) + [|outer[|outer| - 1].0.alts|]
  }

  lemma {:induction false} PendingCounts(outer: seq<(Frame, Byte)>)
    ensures Pending(outer) == Sum(Counts(outer))
  {
    if outer != [] {
      var n := |outer| - 1;
      PendingCounts(outer[..n]);
      assert Counts(outer)[..n] == Counts(outer[..n]);
    }
  }

  /** What a token does to the counts. */
  lemma {:induction false} CountsAfter(tight: bool, st: Parse, t: Tok)
    ensures var res, open, bars := Apply(tight, st, t), Counts(st.outer), |st.top.alts|;
      match t
      case TOr =>
        if Sum(open) + bars >= 100 then res == Err(TooComplex)
        else res.Ok? && Counts(res.value.outer) == open && |res.value.top.alts| == bars + 1
      case TOpen =>
        if |open| >= 99 then res == Err(TooComplex)
        else res.Ok? && Counts(res.value.outer) == open + [bars] && |res.value.top.alts| == 0
      case TClose =>
        if open == [] then res == Err(ParenthesisError)
        else
          res.Ok? && Counts(res.value.outer) == open[..|open| - 1] && |res.value.top.alts| == open[|open| - 1]
      case TLow(_) =>
        res.Ok? && Counts(res.value.outer) == open && |res.value.top.alts| == if tight then 0 else bars
      case _ => res.Ok? && Counts(res.value.outer) == open && |res.value.top.alts| == bars
  {
    hide Whole, Len, Sum, Pending;
    PendingCounts(st.outer);
    if t == TOpen {
      var outer' := st.outer + [(Settled(st.top, false), Register(st))];
      assert outer'[..|outer'| - 1] == st.outer;
    }
    if t == TClose && st.outer != [] {
      var n := |st.outer| - 1;
      assert Counts(st.outer)[..n] == Counts(st.outer[..n]);
    }
  }

  lemma {:induction false} FaultFrom(syn: Syntax, ts: seq<Tok>, begins: bool, st: Parse)
    ensures match Fault(syn, ts, begins, Counts(st.outer), |st.top.alts|)
      case Some(e) => ReadOn(syn, ts, begins, st) == Err(e)
      case None => ReadOn(syn, ts, begins, st).Ok?
    decreases |ts|
  {
    hide Apply, InContext, Sum, Counts, Settled;
    if ts == [] {
      assert |Counts(st.outer)| == |st.outer|;
    } else {
      match InContext(syn, ts, begins)
      case Err(_) =>
      case Ok(t) =>
        CountsAfter(syn.tightVbar, st, t);
        match Apply(syn.tightVbar, st, t)
        case Err(_) =>
        case Ok(st') => FaultFrom(syn, ts[1..], BeginsAfter(ts[0]), st');
    }
  }

  /** The text of any tokens is refused for their first fault, and accepted if they have none. */
  lemma {:induction false} FirstFault(syn: Syntax, ts: seq<Tok>)
    requires AllWritten(syn, ts)
    ensures match Fault(syn, ts, true, [], 0)
      case Some(e) => ParsePattern(syn, TextOf(syn, ts)) == Err(e)
      case None => ParsePattern(syn, TextOf(syn, ts)).Ok?
  {
    hide ReadOn, ParseFrom, TextOf, AllWritten, Fault;
    var st := Parse([], NO_FRAME, 1);
    ReadsOn(syn, TextOf(syn, ts), 0, ts, true, st);
    FaultFrom(syn, ts, true, st);
    assert Counts([]) == [];
  }

  // ---- Parentheses ------------------------------------------------------------------------------------

  /** Every group that is closed has been opened, and every group that is opened is closed. */
  predicate Balanced(ts: seq<Tok>, depth: nat) {
    if ts == [] then depth == 0
    else if ts[0] == TOpen then Balanced(ts[1..], depth + 1)
    else if ts[0] == TClose then depth > 0 && Balanced(ts[1..], depth - 1)
    else Balanced(ts[1..], depth)
  }

  lemma {:induction false} BalancedFault(syn: Syntax, ts: seq<Tok>, begins: bool, open: seq<nat>, bars: nat)
    ensures var f := Fault(syn, ts, begins, open, bars);
      && (Balanced(ts, |open|) ==> f != Basics.Some(ParenthesisError))
      && (!Balanced(ts, |open|) ==> f.Some?)
      && (f == Basics.Some(OpError) ==> syn.contextIndepOps)
      && (|open| + Opens(ts) < 100 && Sum(open) + bars + Bars(ts) <= 100 ==> f != Basics.Some(TooComplex))
      && f != Basics.Some(EndsPrematurely) && f != Basics.Some(BadMatchRegister)
    decreases |ts|
  {
    hide Sum, InContext;
    if ts != [] {
      ContextKind(syn, ts, begins);
      var rest, next := ts[1..], ts[0] == TOpen || ts[0] == TOr;
      SumMore(open, bars);
      if open != [] {
        assert open == open[..|open| - 1] + [open[|open| - 1]];
        SumMore(open[..|open| - 1], open[|open| - 1]);
      }
      match InContext(syn, ts, begins)
      case Err(_) =>
      case Ok(TOr) => BalancedFault(syn, rest, next, open, bars + 1);
      case Ok(TOpen) => BalancedFault(syn, rest, next, open + [bars], 0);
      case Ok(TClose) => if open != [] { BalancedFault(syn, rest, next, open[..|open| - 1], open[|open| - 1]); }
      case Ok(TLow(_)) => BalancedFault(syn, rest, next, open, if syn.tightVbar then 0 else bars);
      case Ok(_) => BalancedFault(syn, rest, next, open, bars);
    }
  }

  lemma {:induction false} SumMore(ns: seq<nat>, n: nat)
    ensures Sum(ns + [n]) == Sum(ns) + n
  {
    assert (ns + [n])[..|ns|] == ns;
  }

  lemma {:induction false} ContextKind(syn: Syntax, ts: seq<Tok>, begins: bool)
    requires ts != []
    ensures match InContext(syn, ts, begins)
      case Err(e) => e == OpError && syn.contextIndepOps
      case Ok(t) => (t.TOr? <==> ts[0].TOr?) && (t.TOpen? <==> ts[0].TOpen?) && (t.TClose? <==> ts[0].TClose?)
  {
  }

  /** Where parentheses do not match, the pattern is refused; the error is that of parentheses, unless there is
      too much nesting or an operator out of place. */
  lemma {:induction false} Unmatched(syn: Syntax, ts: seq<Tok>)
    requires AllWritten(syn, ts)
    ensures var r := ParsePattern(syn, TextOf(syn, ts));
      && (r == Err(ParenthesisError) ==> !Balanced(ts, 0))
      && (!Balanced(ts, 0) ==> r.Err?)
      && (!syn.contextIndepOps && Opens(ts) < 100 && Bars(ts) <= 100 ==>
            if Balanced(ts, 0) then r.Ok? else r == Err(ParenthesisError))
  {
    hide ParsePattern, TextOf, AllWritten, Fault, Balanced;
    FirstFault(syn, ts);
    var none: seq<nat> := [];
    assert Sum(none) == 0 && |none| == 0;
    BalancedFault(syn, ts, true, none, 0);
    match Fault(syn, ts, true, none, 0)
    case None =>
    case Some(OpError) =>
    case Some(ParenthesisError) =>
    case Some(EndsPrematurely) =>
    case Some(TooComplex) =>
    case Some(BadMatchRegister) =>
  }
}
