/** Where the tests of position hold: at the edges of lines, of words and of the text. */
module RegexPlaces {
  import opened RegexCode
  import opened RegexAst
  import opened RegexNotation

  /** Letters and digits. */
  predicate WordByte(c: Byte) {
    || ('a' as int <= c && c <= 'z' as int)
    || ('A' as int <= c && c <= 'Z' as int)
    || ('0' as int <= c && c <= '9' as int)
  }

  lemma {:induction false} WordBytes(c: Byte)
    ensures AtomReads(WordChar, c) <==> WordByte(c)
    ensures AtomReads(NotWordChar, c) <==> !WordByte(c)
  {
  }

  // ---- The text backwards -----------------------------------------------------------------------------

  function Backwards(txt: Text): (r: Text)
    ensures |r| == |txt|
    ensures forall k :: 0 <= k < |txt| ==> r[k] == txt[|txt| - 1 - k]
  {
    if txt == [] then [] else Backwards(txt[1..]) + [txt[0]]
  }

  /** The test that holds where this one holds in the text backwards. */
  function Mirror(op: TestOp): TestOp {
    if op == CBOL then CEOL else if op == CEOL then CBOL
    else if op == CBEGBUF then CENDBUF else if op == CENDBUF then CBEGBUF
    else if op == CWORDBEG then CWORDEND else if op == CWORDEND then CWORDBEG
    else op
  }

  /** Tests of beginnings and of ends mirror each other, and a word boundary is one from either side. */
  lemma {:induction false} Mirrored(op: TestOp, txt: Text, i: nat)
    requires i <= |txt|
    ensures TestOk(op, txt, i) <==> TestOk(Mirror(op), Backwards(txt), |txt| - i)
  {
    hide IsWord;
    assert IsTestOp(op);
  }

  /** A place is a word boundary or else not one. Inside the text the boundaries are the beginnings and the
      ends of words; both ends of the text are boundaries even without a word there. */
  lemma {:induction false} Boundaries(txt: Text, i: nat)
    requires i <= |txt|
    ensures TestOk(CNOTWORDBOUND, txt, i) <==> !TestOk(CWORDBOUND, txt, i)
    ensures TestOk(CWORDBOUND, txt, i) <==>
      TestOk(CWORDBEG, txt, i) || TestOk(CWORDEND, txt, i) || i == 0 || i == |txt|
    ensures !(TestOk(CWORDBEG, txt, i) && TestOk(CWORDEND, txt, i))
  {
  }

  // ---- Lines and words ------------------------------------------------------------------------------------

  lemma {:induction false} RunOf(a: Atom, txt: Text, i: nat, j: nat, n: nat)
    requires i <= |txt| && j <= |txt| && !a.Assert?
    ensures Repeats(Leaf(a), txt, i, j, n) <==> j == i + n && forall k :: i <= k < j ==> AtomReads(a, txt[k])
    decreases n
  {
    hide AtomReads;
    if n > 0 {
      if i < |txt| {
        RunOf(a, txt, i + 1, j, n - 1);
        assert Matches(Leaf(a), txt, i, i + 1) <==> AtomReads(a, txt[i]);
      }
      forall m: nat | m <= |txt| ensures Matches(Leaf(a), txt, i, m) ==> m == i + 1 {}
    }
  }

  /** Any number of the characters that an atom reads. */
  lemma {:induction false} LoopOf(a: Atom, txt: Text, i: nat, j: nat)
    requires i <= |txt| && j <= |txt| && !a.Assert?
    ensures Matches(Star(Leaf(a)), txt, i, j) <==> i <= j && forall k :: i <= k < j ==> AtomReads(a, txt[k])
    ensures Matches(Plus(Leaf(a)), txt, i, j) <==> i < j && forall k :: i <= k < j ==> AtomReads(a, txt[k])
  {
    hide AtomReads, Repeats;
    forall n: nat
      ensures Repeats(Leaf(a), txt, i, j, n) <==> j == i + n && forall k :: i <= k < j ==> AtomReads(a, txt[k])
    {
      RunOf(a, txt, i, j, n);
    }
    if i <= j { assert Repeats(Leaf(a), txt, i, j, j - i) <==> forall k :: i <= k < j ==> AtomReads(a, txt[k]); }
  }

  /** Something between two tests. */
  function Enclosed(before: TestOp, r: Regex, after: TestOp): Regex {
    Cat(Cat(Leaf(Assert(before)), r), Leaf(Assert(after)))
  }

  lemma {:induction false} EnclosedMatches(before: TestOp, r: Regex, after: TestOp, txt: Text, i: nat, j: nat)
    requires i <= |txt| && j <= |txt|
    ensures Matches(Enclosed(before, r, after), txt, i, j) <==>
      TestOk(before, txt, i) && Matches(r, txt, i, j) && TestOk(after, txt, j)
  {
    hide TestOk;
    var b, c := Leaf(Assert(before)), Leaf(Assert(after));
    forall m: nat | m <= |txt| ensures Matches(c, txt, m, j) <==> m == j && TestOk(after, txt, j) {}
    forall m: nat | m <= |txt| ensures Matches(b, txt, i, m) <==> m == i && TestOk(before, txt, i) {}
    assert Matches(Cat(b, r), txt, i, j) <==> TestOk(before, txt, i) && Matches(r, txt, i, j);
  }

  /** `^.*$` matches exactly the lines. */
  lemma {:induction false} WholeLine(txt: Text, i: nat, j: nat)
    requires i <= |txt| && j <= |txt|
    ensures Matches(Enclosed(CBOL, Star(Leaf(AnyChar)), CEOL), txt, i, j) <==>
      && i <= j && (i == 0 || txt[i - 1] == '\n' as int) && (j == |txt| || txt[j] == '\n' as int)
      && forall k :: i <= k < j ==> txt[k] != '\n' as int
  {
    hide Matches;
    EnclosedMatches(CBOL, Star(Leaf(AnyChar)), CEOL, txt, i, j);
    LoopOf(AnyChar, txt, i, j);
  }

  /** Word characters between the beginning and the end of a word are exactly the words. */
  lemma {:induction false} WholeWord(txt: Text, i: nat, j: nat)
    requires i <= |txt| && j <= |txt|
    ensures Matches(Enclosed(CWORDBEG, Plus(Leaf(WordChar)), CWORDEND), txt, i, j) <==>
      && i < j && (i == 0 || !WordByte(txt[i - 1])) && (j == |txt| || !WordByte(txt[j]))
      && forall k :: i <= k < j ==> WordByte(txt[k])
  {
    hide Matches;
    EnclosedMatches(CWORDBEG, Plus(Leaf(WordChar)), CWORDEND, txt, i, j);
    LoopOf(WordChar, txt, i, j);
  }

  /** Anything at all between the two ends of the text is the whole of it. */
  lemma {:induction false} WholeText(r: Regex, txt: Text, i: nat, j: nat)
    requires i <= |txt| && j <= |txt|
    ensures Matches(Enclosed(CBEGBUF, r, CENDBUF), txt, i, j) <==> i == 0 && j == |txt| && Matches(r, txt, i, j)
  {
    hide Matches;
    EnclosedMatches(CBEGBUF, r, CENDBUF, txt, i, j);
  }
}
