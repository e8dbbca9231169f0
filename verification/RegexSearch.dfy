/** A compiled pattern with its fastmap, and forward search for the first place it matches. */
module RegexSearch {
  import opened RegexCode
  import opened RegexAst
  import opened RegexWellFormed
  import opened RegexMeaning
  import opened RegexMachine
  import opened RegexLoops
  import opened RegexFastmap
  import opened RegexMatch
  import opened RegexEngine
  import opened RegexPreference
  import opened RegexAnswer

  /** A match at i needs what the fastmap and can_be_null say. */
  ghost predicate MapSound(r: Regex, map': seq<bool>, null': Byte) {
    |map'| == 256
    && forall txt: Text, i: nat | i <= |txt| && MatchesAt(r, txt, i) ::
         null' == 1 || (i < |txt| && map'[txt[i]]) || (i == |txt| && null' == 2)
  }

  /** A match needs what the anchor says: 1 for the beginning of a line, 2 for that of the text. */
  ghost predicate AnchorSound(r: Regex, anchor: Byte) {
    forall txt: Text, i: nat | i <= |txt| && MatchesAt(r, txt, i) ::
      (anchor == 1 ==> i == 0 || txt[i - 1] == NEWLINE) && (anchor == 2 ==> i == 0)
  }

  /** No match begins at any position from lo up to but excluding hi. */
  ghost predicate NoneIn(r: Regex, txt: Text, lo: nat, hi: nat)
    requires hi <= |txt| + 1
  {
    forall p: nat | lo <= p < hi :: !MatchesAt(r, txt, p)
  }

  /** Matching succeeds at no position from lo up to but excluding hi. */
  ghost predicate FailsIn(r: Regex, txt: Text, lo: nat, hi: nat)
    requires hi <= |txt| + 1
  {
    forall p: nat | lo <= p < hi :: !Succeeds(r, txt, p)
  }

  /** At each of these positions the expression does not match, or matching answers that it does not. */
  ghost predicate PassedIn(r: Regex, txt: Text, lo: nat, hi: nat)
    requires hi <= |txt| + 1
  {
    forall p: nat | lo <= p < hi :: !MatchesAt(r, txt, p) || Answers(r, txt, p, NoMatch)
  }

  lemma {:induction false} PassMore(r: Regex, txt: Text, lo: nat, mid: nat, hi: nat)
    requires hi <= |txt| + 1 && mid <= hi && PassedIn(r, txt, lo, mid) && NoneIn(r, txt, mid, hi)
    ensures PassedIn(r, txt, lo, hi)
  {
    hide MatchesAt, Answers;
  }

  lemma {:induction false} PassOne(r: Regex, txt: Text, lo: nat, p: nat)
    requires p <= |txt| && PassedIn(r, txt, lo, p) && (!MatchesAt(r, txt, p) || Answers(r, txt, p, NoMatch))
    ensures PassedIn(r, txt, lo, p + 1)
  {
    hide MatchesAt, Answers;
  }

  lemma {:induction false} NoneHere(r: Regex, txt: Text, lo: nat, p: nat)
    requires p <= |txt| && NoneIn(r, txt, lo, p) && !MatchesAt(r, txt, p)
    ensures NoneIn(r, txt, lo, p + 1)
  {
    hide MatchesAt;
  }

  /** Matching succeeds at none of the positions passed over, and, for a safe program, the expression
      matches at none of them. */
  lemma {:induction false} NonePassed(r: Regex, txt: Text, lo: nat, hi: nat)
    requires Supported(r) && Small(r) && hi <= |txt| + 1 && PassedIn(r, txt, lo, hi)
    ensures FailsIn(r, txt, lo, hi)
    ensures Safe(r) ==> NoneIn(r, txt, lo, hi)
  {
    hide MatchesAt, Answers, Safe, Supported, Program;
    forall p: nat | lo <= p < hi ensures !Succeeds(r, txt, p) && (Safe(r) ==> !MatchesAt(r, txt, p)) {
      var o := AnswerMeaning(r, txt, p);
      if !MatchesAt(r, txt, p) { NoSuccess(r, txt, p); }
    }
  }

  /** What re_match answers at p, with the program as compiled or as rewritten since. */
  ghost predicate AnswerIs(r: Regex, txt: Text, p: nat, result: int)
    requires p <= |txt|
  {
    exists o :: Answers(r, txt, p, o) && result == Result(o, p)
  }

  /** What searching from lo to hi is to answer: the least position at which re_match succeeds, -1 if it
      succeeds at none, -2 if it overflows at one and succeeds at none before. What is found is a match,
      and for a safe program it is the first. */
  ghost predicate FirstAnswer(r: Regex, txt: Text, lo: nat, hi: nat, result: int)
    requires lo <= hi <= |txt|
  {
    && result >= -2
    && (result >= 0 ==>
          && lo <= result <= hi && Succeeds(r, txt, result) && FailsIn(r, txt, lo, result)
          && MatchesAt(r, txt, result) && (Safe(r) ==> NoneIn(r, txt, lo, result)))
    && (result == -1 ==> FailsIn(r, txt, lo, hi + 1) && (Safe(r) ==> NoneIn(r, txt, lo, hi + 1)))
    && (result == -2 ==> exists p: nat | lo <= p <= hi :: AnswerIs(r, txt, p, -2) && FailsIn(r, txt, lo, p))
  }

  lemma {:induction false} NotFound(r: Regex, txt: Text, lo: nat, hi: nat)
    requires Supported(r) && Small(r) && lo <= hi <= |txt| && PassedIn(r, txt, lo, hi + 1)
    ensures FirstAnswer(r, txt, lo, hi, -1)
  {
    hide Supported, Small, PassedIn, FailsIn, NoneIn, Safe;
    NonePassed(r, txt, lo, hi + 1);
  }

  lemma {:induction false} FoundAt(r: Regex, txt: Text, lo: nat, p: nat, hi: nat, found: int)
    requires Supported(r) && Small(r) && lo <= p <= hi <= |txt| && PassedIn(r, txt, lo, p)
    requires found >= 0 ==> Succeeds(r, txt, p) && p + found <= |txt| && Matches(r, txt, p, p + found)
    requires found >= 0 || (found == -2 && AnswerIs(r, txt, p, found))
    ensures FirstAnswer(r, txt, lo, hi, if found >= 0 then p else -2)
  {
    hide Supported, Small, PassedIn, FailsIn, NoneIn, Safe, Succeeds, Matches, AnswerIs;
    NonePassed(r, txt, lo, p);
  }

  lemma {:induction false} MapIsSound(r: Regex, now: Code, map': seq<bool>, null': Byte)
    requires Supported(r) && Small(r) && Variant(Program(r), Boundaries(r), now) && Analysed(now, 0, map', null')
    ensures MapSound(r, map', null')
  {
    hide Matches, Program, Boundaries, Variant, WellFormed, FirstChar, ReachesEnd, ReachesEol, Accepts, InTail,
      Supported;
    var code, bounds := Program(r), Boundaries(r);
    ProgramWellFormed(r);
    StartNotInTail(code, bounds);
    ProgramFacts(r);
    forall txt: Text, i: nat | i <= |txt| && MatchesAt(r, txt, i)
      ensures null' == 1 || (i < |txt| && map'[txt[i]]) || (i == |txt| && null' == 2)
    {
      var k: nat :| k <= |txt| && Matches(r, txt, i, k);
      ProgramMeaning(r, txt, i, k);
      FastmapSound(code, bounds, now, 0, map', null', txt, i, k);
    }
  }

  lemma {:induction false} AnchorIsSound(r: Regex, anchor: Byte)
    requires Supported(r) && Small(r)
    requires Program(r) != [] && (anchor == 1 ==> Program(r)[0] == CBOL) && (anchor == 2 ==> Program(r)[0] == CBEGBUF)
    ensures AnchorSound(r, anchor)
  {
    hide Matches, Program, Accepts, Supported;
    forall txt: Text, i: nat | i <= |txt| && MatchesAt(r, txt, i)
      ensures (anchor == 1 ==> i == 0 || txt[i - 1] == NEWLINE) && (anchor == 2 ==> i == 0)
    {
      var k: nat :| k <= |txt| && Matches(r, txt, i, k);
      ProgramMeaning(r, txt, i, k);
      AcceptsStep(Program(r), txt, 0, i, k);
    }
  }

  /** Rewriting star jumps does not touch what decides the anchor. */
  lemma {:induction false} FirstOpcode(r: Regex, now: Code)
    requires Supported(r) && Small(r) && Variant(Program(r), Boundaries(r), now)
    ensures |now| > 0 && Program(r) != []
    ensures now[0] == CBOL || now[0] == CBEGBUF ==> Program(r)[0] == now[0]
  {
    hide Program, Boundaries, Variant, WellFormed, CanUpdate;
    ProgramWellFormed(r);
    ProgramFacts(r);
    VariantAt(Program(r), Boundaries(r), now, 0);
    VariantLength(Program(r), Boundaries(r), now);
  }

  /** The result is the one the machine gives, and the code after is the one it leaves. */
  ghost predicate Answered(before: Code, txt: Text, pos: nat, result: int, after: Code)
    requires pos <= |txt|
  {
    exists n: nat, o :: RunsTo(true, Initial(before, pos), txt, n, o, after) && result == Result(o, pos)
  }

  class PatternBuffer {
    var buffer: array<Byte>
    var used: nat
    var fastmap: array<bool>
    var fastmapAccurate: bool
    var canBeNull: Byte
    var anchor: Byte

    constructor (buffer: array<Byte>, used: nat, fastmap: array<bool>)
      ensures this.buffer == buffer && this.used == used && this.fastmap == fastmap && !fastmapAccurate
    {
      this.buffer, this.used, this.fastmap := buffer, used, fastmap;
      fastmapAccurate, canBeNull, anchor := false, 0, 0;
    }

    /** The buffer holds the compiled form of r, possibly rewritten by earlier matches. */
    ghost predicate Compiled(r: Regex)
      reads this, buffer, fastmap
    {
      && Supported(r) && Small(r) && used <= buffer.Length && fastmap.Length == 256
      && Genuine(Program(r), Boundaries(r), buffer[..used])
      && (fastmapAccurate ==> MapSound(r, fastmap[..], canBeNull) && AnchorSound(r, anchor))
    }

    /** re_compile_fastmap. */
    method CompileFastmap(ghost r: Regex)
      requires Compiled(r)
      modifies this`fastmapAccurate, this`canBeNull, this`anchor, fastmap
      ensures Compiled(r) && fastmapAccurate
      ensures !old(fastmapAccurate) ==>
        && used > 0 && Analysed(buffer[..used], 0, fastmap[..], canBeNull)
        && anchor == (if buffer[..used][0] == CBOL then 1 else if buffer[..used][0] == CBEGBUF then 2 else 0)
      ensures old(fastmapAccurate) ==>
        fastmap[..] == old(fastmap[..]) && canBeNull == old(canBeNull) && anchor == old(anchor)
    {
      hide Variant, CanUpdate, MapSound, AnchorSound, Analysed, WellFormed, Closed, Program, Boundaries, Small,
        Supported;
      if fastmapAccurate { return; }
      ghost var now := buffer[..used];
      ProgramWellFormed(r);
      ProgramFacts(r);
      VariantClosed(Program(r), Boundaries(r), now);
      canBeNull := DoCompileFastmap(buffer, used, Boundaries(r), 0, fastmap);
      assert now == buffer[..used];
      MapIsSound(r, now, fastmap[..], canBeNull);
      FirstOpcode(r, now);
      if buffer[0] == CBOL { anchor := 1; }
      else if buffer[0] == CBEGBUF { anchor := 2; }
      else { anchor := 0; }
      AnchorIsSound(r, anchor);
      fastmapAccurate := true;
    }

    /** re_match: the length matched at pos, -1 if no match is found there, -2 on overflow. The answer does
        not depend on what earlier calls have made of the buffer. */
    method Match(txt: Text, pos: nat, ghost r: Regex) returns (result: int)
      requires Compiled(r) && pos <= |txt|
      modifies buffer
      ensures Compiled(r) && result >= -2
      ensures AnswerIs(r, txt, pos, result) && (result >= 0 <==> Succeeds(r, txt, pos))
      ensures result >= 0 ==> pos + result <= |txt| && Matches(r, txt, pos, pos + result)
      ensures result == -1 ==> Answers(r, txt, pos, NoMatch) && (Safe(r) ==> !MatchesAt(r, txt, pos))
      ensures Safe(r) && Progresses(r) && result != -2 ==>
        var es := Ends(r, txt, pos); if es == [] then result == -1 else pos + result == es[0]
      ensures Answered(old(buffer[..used]), txt, pos, result, buffer[..used])
    {
      hide Variant, CanUpdate, MapSound, AnchorSound, WellFormed, Program, Boundaries, Small, Supported, RunsTo,
        Matches, MatchesAt, Safe, Answers, Ends;
      ghost var now, outcome, steps := buffer[..used], Aborted, 0;
      ProgramWellFormed(r);
      result, outcome, steps := ReMatch(buffer, used, Program(r), Boundaries(r), txt, pos);
      RunCorrect(r, now, txt, pos, steps, outcome, buffer[..used]);
      if Safe(r) && Progresses(r) { FirstPreference(r, now, txt, pos, steps, outcome, buffer[..used]); }
      AnswerNow(r, now, txt, pos, steps, outcome, buffer[..used], outcome);
      if Succeeds(r, txt, pos) {
        var e: nat :| Answers(r, txt, pos, Matched(e));
        AnswerNow(r, now, txt, pos, steps, outcome, buffer[..used], Matched(e));
      }
    }

    lemma {:induction false} CompiledFacts(r: Regex)
      requires Compiled(r) && fastmapAccurate
      ensures MapSound(r, fastmap[..], canBeNull) && AnchorSound(r, anchor) && Supported(r) && Small(r)
    {
    }

    /** Skips positions whose character cannot start a match. */
    method Skip(txt: Text, pos: nat, range: nat, ghost r: Regex) returns (p: nat, left: nat)
      requires Compiled(r) && fastmapAccurate && canBeNull != 1 && pos + range <= |txt|
      ensures pos <= p && p + left == pos + range
      ensures NoneIn(r, txt, pos, p)
    {
      hide Variant, MapSound, AnchorSound, Program, Boundaries, Small, Supported, Matches, MatchesAt;
      p, left := pos, range;
      while left != 0 && !fastmap[txt[p]]
        invariant pos <= p && p + left == pos + range
        invariant NoneIn(r, txt, pos, p)
      {
        NotInMap(r, fastmap[..], canBeNull, txt, p);
        NoneHere(r, txt, pos, p);
        p, left := p + 1, left - 1;
      }
    }

    /** re_search, forwards. In spite of the fastmap, the anchor and the early return, nothing is missed
        that trying re_match at each position in turn would find. */
    method Search(txt: Text, pos: nat, range: nat, ghost r: Regex) returns (result: int)
      requires Compiled(r) && pos + range <= |txt|
      modifies this, buffer, fastmap
      ensures Compiled(r)
      ensures FirstAnswer(r, txt, pos, pos + range, result)
    {
      hide Variant, CanUpdate, MapSound, AnchorSound, Program, Boundaries, Small, Supported, Matches, MatchesAt, Safe,
        Answered, NoneIn, Compiled, Answers, AnswerIs, PassedIn, FailsIn, Succeeds, FirstAnswer;
      CompileFastmap(r);
      var useMap := canBeNull != 1;
      var p: nat, left: int := pos, range;
      Nowhere(r, txt, pos);
      CompiledFacts(r);
      if anchor == 2 {
        if pos != 0 {
          NotLater(r, anchor, txt, pos, pos, pos + range);
          NotFound(r, txt, pos, pos + range);
          return -1;
        }
        left := 0;
      }
      while left >= 0
        invariant left >= -1 && pos <= p && Compiled(r) && fastmapAccurate
        invariant p + left == if anchor == 2 then 0 else pos + range
        invariant anchor == 2 ==> pos == 0
        invariant buffer == old(buffer) && fastmap == old(fastmap) && useMap == (canBeNull != 1)
        invariant PassedIn(r, txt, pos, p)
        decreases left
      {
        CompiledFacts(r);
        if useMap {
          ghost var from := p;
          p, left := Skip(txt, p, left, r);
          PassMore(r, txt, pos, from, p);
          if p == |txt| && canBeNull == 0 {
            NotInMap(r, fastmap[..], canBeNull, txt, p);
            PassOne(r, txt, pos, p);
            NotFound(r, txt, pos, p);
            return -1;
          }
        }
        if anchor == 1 && p > 0 && txt[p - 1] != NEWLINE {
          NotAtLineStart(r, anchor, txt, p);
        } else {
          var found := Match(txt, p, r);
          if found != -1 { FoundAt(r, txt, pos, p, pos + range, found); }
          if found >= 0 { return p; }
          if found == -2 { return -2; }
        }
        PassOne(r, txt, pos, p);
        p, left := p + 1, left - 1;
      }
      if anchor == 2 {
        CompiledFacts(r);
        NotLater(r, anchor, txt, 0, 1, range);
      }
      NotFound(r, txt, pos, pos + range);
      return -1;
    }
  }

  lemma {:induction false} NotInMap(r: Regex, map': seq<bool>, null': Byte, txt: Text, p: nat)
    requires MapSound(r, map', null') && null' != 1 && p <= |txt|
    requires (p < |txt| && !map'[txt[p]]) || (p == |txt| && null' == 0)
    ensures !MatchesAt(r, txt, p)
  {
    hide MatchesAt;
  }

  lemma {:induction false} Nowhere(r: Regex, txt: Text, pos: nat)
    requires pos <= |txt|
    ensures NoneIn(r, txt, pos, pos) && PassedIn(r, txt, pos, pos)
  {
  }

  /** Under an anchor at the beginning of the text nothing matches later on. */
  lemma {:induction false} NotLater(r: Regex, anchor: Byte, txt: Text, pos: nat, lo: nat, hi: nat)
    requires AnchorSound(r, anchor) && anchor == 2 && 0 < lo && lo <= hi + 1 && hi <= |txt| && PassedIn(r, txt, pos, lo)
    ensures PassedIn(r, txt, pos, hi + 1)
  {
    hide MatchesAt, Answers;
  }

  lemma {:induction false} NotAtLineStart(r: Regex, anchor: Byte, txt: Text, p: nat)
    requires AnchorSound(r, anchor) && anchor == 1 && 0 < p <= |txt| && txt[p - 1] != NEWLINE
    ensures !MatchesAt(r, txt, p)
  {
    hide MatchesAt;
  }
}
