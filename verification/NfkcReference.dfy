/** What composition does, said without its loop: which texts it leaves alone, and what it makes of the
    others, character by character. */
module NfkcReference {
  import opened Basics
  import opened Utf8
  import opened NfkcOrder
  import opened NfkcDecompose
  import opened NfkcCompose
  import opened NfkcMeaning

  // ---- Single characters ----------------------------------------------------------------------------------

  /** A character with a row decomposes to what the row has: the compatibility mapping if that is wanted and
      there is one, or else the canonical mapping. Without either it stays, as it does without a row.
      Characters in the block of Hangul syllables are not looked up. */
  lemma {:induction false} RowDecomposes(table: seq<Entry>, compat: bool, c: Wc, k: nat)
    requires TableOk(table) && !(0xAC00 <= c && c <= 0xD7AF)
    ensures k < |table| && table[k].ch == c ==>
      Decompose(table, compat, c) ==
        if compat && table[k].compat.Some? then table[k].compat.value
        else if table[k].canon.Some? then table[k].canon.value
        else [c]
    ensures (forall j :: 0 <= j < |table| ==> table[j].ch != c) ==> Decompose(table, compat, c) == [c]
  {
    if k < |table| && table[k].ch == c {
      ExpansionAt(table, compat, c, k);
    } else if forall j :: 0 <= j < |table| ==> table[j].ch != c {
      forall e <- table ensures e.ch != c {
        var j :| 0 <= j < |table| && table[j] == e;
      }
      ExpansionNone(table, compat, c);
    }
  }

  /** The syllable made of the l-th leading consonant, the v-th vowel and the t-th trailing one, or none if t
      is 0, decomposes to these: section 3.12 of the Unicode Standard. */
  lemma {:induction false} SyllableDecomposes(table: seq<Entry>, compat: bool, l: nat, v: nat, t: nat)
    requires l < 19 && v < 21 && t < 28
    ensures Decompose(table, compat, 0xAC00 + (l * 21 + v) * 28 + t)
      == [0x1100 + l, 0x1161 + v] + (if t == 0 then [] else [0x11A7 + t])
  {
    var i := (l * 21 + v) * 28 + t;
    assert i == 588 * l + (v * 28 + t) && v * 28 + t < 588;
    assert i / NCOUNT == l && i % NCOUNT == v * 28 + t;
    assert i % TCOUNT == t && (v * 28 + t) / TCOUNT == v;
  }

  // ---- Pairs ----------------------------------------------------------------------------------------------

  /** A leading consonant and a vowel, or a syllable without a trailing consonant and one. The range of
      trailing consonants includes the characters at both its ends. */
  predicate HangulPair(a: Wc, b: Wc) {
    || (LBASE <= a < LBASE + LCOUNT && VBASE <= b < VBASE + VCOUNT)
    || (IsSyllable(a) && |Jamo(a)| == 2 && TBASE <= b <= TBASE + TCOUNT)
  }

  lemma {:induction false} HangulPairs(a: Wc, b: Wc)
    ensures CombineHangul(a, b).Some? <==> HangulPair(a, b)
  {
  }

  /** The pair composes. */
  predicate Joins(pairs: Pairs, a: Wc, b: Wc) {
    HangulPair(a, b) || pairs(a, b).Some?
  }

  lemma {:induction false} JoinsCombine(pairs: Pairs, a: Wc, b: Wc)
    ensures Combine(pairs, a, b).Some? <==> Joins(pairs, a, b)
    ensures !HangulPair(a, b) ==> Combine(pairs, a, b) == pairs(a, b)
  {
    HangulPairs(a, b);
  }

  /** Two characters that compose by table are composed. */
  lemma {:induction false} TwoCompose(cc: Classes, pairs: Pairs, a: Wc, b: Wc, c: Wc)
    requires pairs(a, b) == Some(c) && !HangulPair(a, b) && (cc(a) == 0 || cc(a) != cc(b))
    ensures Compose(cc, pairs, [a, b]) == [c]
  {
    hide ComposeFrom, HangulPair, Combine;
    var s := [a, b];
    JoinsCombine(pairs, a, b);
    FirstStep(cc, pairs, s);
    StepJoin(cc, pairs, s, 1, 0, cc(a));
    assert Without(s[0 := c], 1) == [c];
    FromEnd(cc, pairs, [c], 0, 0);
  }

  lemma {:induction false} FirstStep(cc: Classes, pairs: Pairs, s: seq<Wc>)
    requires s != []
    ensures Compose(cc, pairs, s) == ComposeFrom(cc, pairs, s, 1, 0, cc(s[0]))
  {
  }

  // ---- Texts that stay as they are ------------------------------------------------------------------------

  /** The position of the last starter before i, or 0 if there is none. */
  function LastStarter(cc: Classes, s: seq<Wc>, i: nat): (k: nat)
    requires i <= |s|
    ensures i > 0 ==> k < i
  {
    if i == 0 then 0 else if cc(s[i - 1]) == 0 then i - 1 else LastStarter(cc, s, i - 1)
  }

  /** The character at i is not blocked and composes with the last starter before it. */
  predicate CanJoin(cc: Classes, pairs: Pairs, s: seq<Wc>, i: nat)
    requires i < |s|
  {
    i > 0 && (cc(s[i - 1]) == 0 || cc(s[i - 1]) != cc(s[i])) && Joins(pairs, s[LastStarter(cc, s, i)], s[i])
  }

  lemma {:induction false} NeverLonger(cc: Classes, pairs: Pairs, s: seq<Wc>, i: nat, last: nat, lastCc: nat)
    requires i == last == 0 || last < i <= |s|
    ensures |ComposeFrom(cc, pairs, s, i, last, lastCc)| <= |s|
    decreases |s| - i
  {
    hide Combine, Without;
    if i >= |s| {
    } else if i > 0 && (lastCc == 0 || lastCc != cc(s[i])) && Combine(pairs, s[last], s[i]).Some? {
      var s' := Without(s[last := Combine(pairs, s[last], s[i]).value], i);
      WithoutSize(s[last := Combine(pairs, s[last], s[i]).value], i);
      NeverLonger(cc, pairs, s', i, last, if i - 1 == last then 0 else cc(s'[i - 2]));
    } else {
      NeverLonger(cc, pairs, s, i + 1, if cc(s[i]) == 0 then i else last, cc(s[i]));
    }
  }

  lemma {:induction false} StaysFrom(cc: Classes, pairs: Pairs, s: seq<Wc>, i: nat)
    requires i <= |s|
    ensures ComposeFrom(cc, pairs, s, i, LastStarter(cc, s, i), if i == 0 then 0 else cc(s[i - 1])) == s
      <==> forall k :: i <= k < |s| ==> !CanJoin(cc, pairs, s, k)
    decreases |s| - i
  {
    hide Combine, Without, Joins, ComposeFrom;
    if i < |s| {
      var last := LastStarter(cc, s, i);
      JoinsCombine(pairs, s[last], s[i]);
      if CanJoin(cc, pairs, s, i) {
        var c := Combine(pairs, s[last], s[i]).value;
        var s' := Without(s[last := c], i);
        WithoutSize(s[last := c], i);
        StepJoin(cc, pairs, s, i, last, cc(s[i - 1]));
        NeverLonger(cc, pairs, s', i, last, if i - 1 == last then 0 else cc(s'[i - 2]));
      } else {
        StepPast(cc, pairs, s, i);
        StaysFrom(cc, pairs, s, i + 1);
      }
    } else {
      FromEnd(cc, pairs, s, LastStarter(cc, s, i), if i == 0 then 0 else cc(s[i - 1]));
    }
  }

  lemma {:induction false} StepPast(cc: Classes, pairs: Pairs, s: seq<Wc>, i: nat)
    requires i < |s| && !CanJoin(cc, pairs, s, i)
    ensures ComposeFrom(cc, pairs, s, i, LastStarter(cc, s, i), if i == 0 then 0 else cc(s[i - 1]))
      == ComposeFrom(cc, pairs, s, i + 1, LastStarter(cc, s, i + 1), cc(s[i]))
  {
    hide Combine, Joins, Without;
    JoinsCombine(pairs, s[LastStarter(cc, s, i)], s[i]);
  }

  /** Composition changes nothing if and only if no character composes with the last starter before it,
      unblocked. */
  lemma {:induction false} StaysComposed(cc: Classes, pairs: Pairs, s: seq<Wc>)
    ensures Compose(cc, pairs, s) == s <==> forall i :: 0 <= i < |s| ==> !CanJoin(cc, pairs, s, i)
  {
    hide ComposeFrom, CanJoin;
    StaysFrom(cc, pairs, s, 0);
  }

  // ---- The composition algorithm of the standard -----------------------------------------------------------

  /** What a pair composes to. */
  function Composite(pairs: Pairs, a: Wc, b: Wc): Option<Wc> {
    if LBASE <= a < LBASE + LCOUNT && VBASE <= b < VBASE + VCOUNT
    then Some(SBASE + (a - LBASE) * NCOUNT + (b - VBASE) * TCOUNT)
    else if HangulPair(a, b) then Some(a + (b - TBASE))
    else pairs(a, b)
  }

  lemma {:induction false} CompositeCombine(pairs: Pairs, a: Wc, b: Wc)
    ensures Combine(pairs, a, b) == Composite(pairs, a, b)
  {
    JoinsCombine(pairs, a, b);
    var l, v := a - LBASE, b - VBASE;
    assert (l * VCOUNT + v) * TCOUNT == l * NCOUNT + v * TCOUNT;
  }

  /** Reading on, with what is finished, the last starter and whether something has been composed with it,
      the marks kept since, and what is to come. A character is blocked if the one kept before it is of
      its class and no starter. */
  function Read(cc: Classes, pairs: Pairs, done: seq<Wc>, l: Wc, joined: bool, m: seq<Wc>, rest: seq<Wc>): seq<Wc>
    decreases |rest|
  {
    if rest == [] then done + [l] + m
    else
      var x := rest[0];
      var before := if m != [] then cc(m[|m| - 1]) else if joined then 0 else cc(l);
      if (before == 0 || before != cc(x)) && Composite(pairs, l, x).Some? then
        Read(cc, pairs, done, Composite(pairs, l, x).value, true, m, rest[1..])
      else if cc(x) == 0 then Read(cc, pairs, done + [l] + m, x, false, [], rest[1..])
      else Read(cc, pairs, done, l, joined, m + [x], rest[1..])
  }

  /** Composed characters are starters. */
  ghost predicate StartersOnly(cc: Classes, pairs: Pairs) {
    forall a: Wc, b: Wc :: Combine(pairs, a, b).Some? ==> cc(Combine(pairs, a, b).value) == 0
  }

  /** The loop and the reader at the same place. What the loop remembers is the class of the character
      kept before, or it blocks nothing more than that does. */
  ghost predicate Abreast(cc: Classes, l: Wc, joined: bool, m: seq<Wc>, rest: seq<Wc>, lastCc: nat, prev: nat) {
    && Passed(cc, m, lastCc, prev) && Coming(cc, rest, prev)
    && (m == [] ==> lastCc == if joined then 0 else cc(l))
    && (m != [] ==>
          (lastCc == cc(m[|m| - 1]) || ((forall x <- m :: cc(x) < prev) && (lastCc == 0 || lastCc < prev))))
  }

  /** The text at such a place. */
  ghost predicate Placed(s: seq<Wc>, i: nat, last: nat, done: seq<Wc>, l: Wc, m: seq<Wc>, rest: seq<Wc>) {
    s == done + [l] + m + rest && last == |done| && i == last + 1 + |m|
  }

  lemma {:induction false} SameBlocking(cc: Classes, l: Wc, joined: bool, m: seq<Wc>, rest: seq<Wc>,
                                        lastCc: nat, prev: nat)
    requires Abreast(cc, l, joined, m, rest, lastCc, prev) && rest != []
    ensures var before := if m != [] then cc(m[|m| - 1]) else if joined then 0 else cc(l);
      (lastCc == 0 || lastCc != cc(rest[0])) <==> (before == 0 || before != cc(rest[0]))
  {
    if m != [] { assert m[|m| - 1] in m; }
  }

  /** One turn of the loop. */
  lemma {:induction false} LoopTurn(cc: Classes, pairs: Pairs, s: seq<Wc>, i: nat, last: nat, lastCc: nat)
    requires last < i < |s| && Lawful(cc, pairs, s, i, last, lastCc)
    ensures if (lastCc == 0 || lastCc != cc(s[i])) && Combine(pairs, s[last], s[i]).Some? then
        var s' := Without(s[last := Combine(pairs, s[last], s[i]).value], i);
        var lastCc' := if i - 1 == last then 0 else cc(s'[i - 2]);
        && (Since(s, last, i) == [] || cc(s[i]) != 0) && Lawful(cc, pairs, s', i, last, lastCc')
        && ComposeFrom(cc, pairs, s, i, last, lastCc) == ComposeFrom(cc, pairs, s', i, last, lastCc')
      else
        var last' := if cc(s[i]) == 0 then i else last;
        && Lawful(cc, pairs, s, i + 1, last', cc(s[i]))
        && ComposeFrom(cc, pairs, s, i, last, lastCc) == ComposeFrom(cc, pairs, s, i + 1, last', cc(s[i]))
  {
    hide Combine, Without, FalseJoin, Since;
  }

  /** One character read. */
  lemma {:induction false} ReadTurn(cc: Classes, pairs: Pairs, done: seq<Wc>, l: Wc, joined: bool, m: seq<Wc>,
                                    rest: seq<Wc>)
    ensures Read(cc, pairs, done, l, joined, m, rest) ==
      if rest == [] then done + [l] + m
      else
        var x := rest[0];
        var before := if m != [] then cc(m[|m| - 1]) else if joined then 0 else cc(l);
        if (before == 0 || before != cc(x)) && Composite(pairs, l, x).Some? then
          Read(cc, pairs, done, Composite(pairs, l, x).value, true, m, rest[1..])
        else if cc(x) == 0 then Read(cc, pairs, done + [l] + m, x, false, [], rest[1..])
        else Read(cc, pairs, done, l, joined, m + [x], rest[1..])
  {
    hide Composite;
  }

  lemma {:induction false} PlacedAt(s: seq<Wc>, i: nat, last: nat, done: seq<Wc>, l: Wc, m: seq<Wc>, rest: seq<Wc>)
    requires Placed(s, i, last, done, l, m, rest)
    ensures last < i <= |s| && s[last] == l && Since(s, last, i) == m && i + |rest| == |s|
    ensures if rest == [] then s == done + [l] + m else s[i] == rest[0]
  {
  }

  lemma {:induction false} ReadOn(cc: Classes, pairs: Pairs, s: seq<Wc>, i: nat, last: nat, lastCc: nat, prev: nat,
                                  done: seq<Wc>, l: Wc, joined: bool, m: seq<Wc>, rest: seq<Wc>)
    requires Placed(s, i, last, done, l, m, rest) && Abreast(cc, l, joined, m, rest, lastCc, prev)
    requires StartersOnly(cc, pairs) && Lawful(cc, pairs, s, i, last, lastCc)
    ensures i <= |s| && ComposeFrom(cc, pairs, s, i, last, lastCc) == Read(cc, pairs, done, l, joined, m, rest)
    decreases |rest|
  {
    hide Combine, Composite, Without, Abreast, StartersOnly, Placed, Since, Read, Lawful, ComposeFrom;
    PlacedAt(s, i, last, done, l, m, rest);
    ReadTurn(cc, pairs, done, l, joined, m, rest);
    if rest == [] {
      FromEnd(cc, pairs, s, last, lastCc);
    } else {
      var x := rest[0];
      LoopTurn(cc, pairs, s, i, last, lastCc);
      SameBlocking(cc, l, joined, m, rest, lastCc, prev);
      CompositeCombine(pairs, l, x);
      if (lastCc == 0 || lastCc != cc(x)) && Combine(pairs, l, x).Some? {
        var c := Combine(pairs, l, x).value;
        var s' := Without(s[last := c], i);
        PlacedJoin(s, i, last, done, l, m, rest, c);
        var lastCc' := if i - 1 == last then 0 else cc(s'[i - 2]);
        JoinedAbreast(cc, pairs, l, joined, m, rest, lastCc, prev, lastCc');
        ReadOn(cc, pairs, s', i, last, lastCc', cc(x), done, c, true, m, rest[1..]);
      } else if cc(x) == 0 {
        PlacedStarter(s, i, last, done, l, m, rest);
        StarterAbreast(cc, l, joined, m, rest, lastCc, prev);
        ReadOn(cc, pairs, s, i + 1, i, cc(x), cc(x), done + [l] + m, x, false, [], rest[1..]);
      } else {
        PlacedMark(s, i, last, done, l, m, rest);
        MarkAbreast(cc, l, joined, m, rest, lastCc, prev);
        ReadOn(cc, pairs, s, i + 1, last, cc(x), cc(x), done, l, joined, m + [x], rest[1..]);
      }
    }
  }

  lemma {:induction false} PlacedJoin(s: seq<Wc>, i: nat, last: nat, done: seq<Wc>, l: Wc, m: seq<Wc>,
                                      rest: seq<Wc>, c: Wc)
    requires Placed(s, i, last, done, l, m, rest) && rest != []
    ensures i < |s| && Placed(Without(s[last := c], i), i, last, done, c, m, rest[1..])
    ensures var s' := Without(s[last := c], i);
      (if |m| > 0 then i >= 2 && i - 2 < |s'| && s'[i - 2] == if |m| == 1 then c else m[|m| - 2] else i - 1 == last)
  {
  }

  lemma {:induction false} PlacedStarter(s: seq<Wc>, i: nat, last: nat, done: seq<Wc>, l: Wc, m: seq<Wc>,
                                         rest: seq<Wc>)
    requires Placed(s, i, last, done, l, m, rest) && rest != []
    ensures Placed(s, i + 1, i, done + [l] + m, rest[0], [], rest[1..])
  {
  }

  lemma {:induction false} PlacedMark(s: seq<Wc>, i: nat, last: nat, done: seq<Wc>, l: Wc, m: seq<Wc>,
                                      rest: seq<Wc>)
    requires Placed(s, i, last, done, l, m, rest) && rest != []
    ensures Placed(s, i + 1, last, done, l, m + [rest[0]], rest[1..])
  {
  }

  lemma {:induction false} StarterAbreast(cc: Classes, l: Wc, joined: bool, m: seq<Wc>, rest: seq<Wc>,
                                          lastCc: nat, prev: nat)
    requires Abreast(cc, l, joined, m, rest, lastCc, prev) && rest != [] && cc(rest[0]) == 0
    ensures Abreast(cc, rest[0], false, [], rest[1..], 0, 0)
  {
    hide Coming;
    ComingOn(cc, rest, prev);
  }

  lemma {:induction false} MarkAbreast(cc: Classes, l: Wc, joined: bool, m: seq<Wc>, rest: seq<Wc>,
                                       lastCc: nat, prev: nat)
    requires Abreast(cc, l, joined, m, rest, lastCc, prev) && rest != [] && cc(rest[0]) != 0
    ensures Abreast(cc, l, joined, m + [rest[0]], rest[1..], cc(rest[0]), cc(rest[0]))
  {
    hide Coming, Passed;
    ComingOn(cc, rest, prev);
    PassedOn(cc, m, lastCc, prev, rest[0]);
  }

  lemma {:induction false} JoinedAbreast(cc: Classes, pairs: Pairs, l: Wc, joined: bool, m: seq<Wc>, rest: seq<Wc>,
                                         lastCc: nat, prev: nat, lastCc': nat)
    requires Abreast(cc, l, joined, m, rest, lastCc, prev) && rest != [] && (m == [] || cc(rest[0]) != 0)
    requires StartersOnly(cc, pairs) && Combine(pairs, l, rest[0]).Some? && (lastCc == 0 || lastCc != cc(rest[0]))
    requires var c := Combine(pairs, l, rest[0]).value;
      lastCc' == if m == [] then 0 else if |m| == 1 then cc(c) else cc(m[|m| - 2])
    ensures Abreast(cc, Combine(pairs, l, rest[0]).value, true, m, rest[1..], lastCc', cc(rest[0]))
  {
    hide Combine, Coming, Passed;
    ComingOn(cc, rest, prev);
    MarksLower(cc, m, rest, lastCc, prev);
    StillPassed(cc, m, lastCc, prev, lastCc', cc(rest[0]));
    if |m| > 1 { assert m[|m| - 2] in m; }
  }

  /** On a text in canonical order, where the loop makes lawful joins only, composition is what the
      standard's algorithm makes of it. */
  lemma {:induction false} ComposeReads(cc: Classes, pairs: Pairs, s: seq<Wc>)
    requires Ordered(cc, s) && s != [] && StartersOnly(cc, pairs) && Lawful(cc, pairs, s, 0, 0, 0)
    ensures Compose(cc, pairs, s) == Read(cc, pairs, [], s[0], false, [], s[1..])
  {
    hide Combine, Composite, ComposeFrom, Read, StartersOnly;
    assert s == [] + [s[0]] + [] + s[1..];
    FirstStep(cc, pairs, s);
    LawfulFirst(cc, pairs, s);
    if |s| > 1 { assert s[1..][0] == s[1]; }
    ReadOn(cc, pairs, s, 1, 0, cc(s[0]), cc(s[0]), [], s[0], false, [], s[1..]);
  }

  lemma {:induction false} LawfulFirst(cc: Classes, pairs: Pairs, s: seq<Wc>)
    requires s != [] && Lawful(cc, pairs, s, 0, 0, 0)
    ensures Lawful(cc, pairs, s, 1, 0, cc(s[0]))
  {
  }

  // ---- Normal forms -----------------------------------------------------------------------------------------

  /** The decomposed form is in canonical order and differs from the decompositions of the characters, one
      after the other, by legal exchanges only; the composed form is the composition of it. */
  lemma {:induction false} NormalParts(table: seq<Entry>, compat: bool, cc: Classes, pairs: Pairs, cs: seq<Wc>)
    ensures var d := Normal(table, compat, false, cc, pairs, cs);
      && Ordered(cc, d) && Kept(cc, DecomposeAll(table, compat, cs), d)
      && Normal(table, compat, true, cc, pairs, cs) == Compose(cc, pairs, d)
  {
    hide Order, Proj, DecomposeAll;
    OrderSorts(cc, DecomposeAll(table, compat, cs));
  }

  lemma {:induction false} DecomposeEach(table: seq<Entry>, compat: bool, a: Wc, b: Wc)
    ensures DecomposeAll(table, compat, [a]) == Decompose(table, compat, a)
    ensures DecomposeAll(table, compat, [a, b]) == Decompose(table, compat, a) + Decompose(table, compat, b)
  {
    hide Decompose;
    assert [a][..0] == [] && [a, b][..1] == [a];
    assert DecomposeAll(table, compat, []) == [];
  }

  lemma {:induction false} OrderedStays(cc: Classes, s: seq<Wc>)
    requires Ordered(cc, s)
    ensures Order(cc, s) == s
  {
    hide Order, Proj;
    KeptRefl(cc, s);
    OrderUnique(cc, s, s);
  }

  /** A starter and a mark that the table of compositions joins, and that the table of decompositions does not
      hold, become one character in the composed form and stay two in the decomposed one. */
  lemma {:induction false} TwoNormal(table: seq<Entry>, compat: bool, cc: Classes, pairs: Pairs, a: Wc, b: Wc, c: Wc)
    requires pairs(a, b) == Some(c) && !HangulPair(a, b) && cc(a) == 0
    requires Decompose(table, compat, a) == [a] && Decompose(table, compat, b) == [b]
    ensures Normal(table, compat, true, cc, pairs, [a, b]) == [c]
    ensures Normal(table, compat, false, cc, pairs, [a, b]) == [a, b]
  {
    hide Order, Decompose, DecomposeAll, Compose, HangulPair;
    DecomposeEach(table, compat, a, b);
    assert [a] + [b] == [a, b];
    OrderedStays(cc, [a, b]);
    TwoCompose(cc, pairs, a, b, c);
  }

  /** A character with a compatibility mapping to one character becomes that in the compatibility forms. In the
      canonical ones it stays if it has no canonical mapping. */
  lemma {:induction false} OneNormal(table: seq<Entry>, compose: bool, cc: Classes, pairs: Pairs, k: nat, c: Wc, d: Wc)
    requires TableOk(table) && !(0xAC00 <= c && c <= 0xD7AF)
    requires k < |table| && table[k] == Entry(c, None, Some([d]))
    ensures Normal(table, true, compose, cc, pairs, [c]) == [d]
    ensures Normal(table, false, compose, cc, pairs, [c]) == [c]
  {
    hide Order, Decompose, DecomposeAll, TableOk;
    RowDecomposes(table, true, c, k);
    RowDecomposes(table, false, c, k);
    DecomposeEach(table, true, c, c);
    DecomposeEach(table, false, c, c);
    OrderedStays(cc, [c]);
    OrderedStays(cc, [d]);
    OneComposed(cc, pairs, c);
    OneComposed(cc, pairs, d);
  }

  lemma {:induction false} OneComposed(cc: Classes, pairs: Pairs, c: Wc)
    ensures Compose(cc, pairs, [c]) == [c]
  {
    hide Combine;
    StaysComposed(cc, pairs, [c]);
  }
}
