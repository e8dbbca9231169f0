/** What composition means: when it keeps the text canonically equivalent to what it was, and how it
    can fail to. */
module NfkcMeaning {
  import opened Basics
  import opened Utf8
  import opened NfkcOrder
  import opened NfkcDecompose
  import opened NfkcCompose

  /** The full canonical decomposition of each character but the syllables. */
  type Full = Wc -> seq<Wc>

  function Canon(full: Full, c: Wc): seq<Wc> {
    if IsSyllable(c) then Jamo(c) else full(c)
  }

  function CanonAll(full: Full, s: seq<Wc>): seq<Wc> {
    if s == [] then [] else Canon(full, s[0]) + CanonAll(full, s[1..])
  }

  /** The composition table undoes decompositions. */
  ghost predicate PairsOk(cc: Classes, pairs: Pairs, full: Full) {
    && (forall c: Wc :: IsJamo(c) ==> full(c) == [c])
    && (forall a: Wc, b: Wc :: pairs(a, b).Some? ==>
          Kept(cc, Canon(full, a) + Canon(full, b), Canon(full, pairs(a, b).value)))
  }

  /** The two ends of the range of trailing consonants that are no trailing consonants. */
  predicate IsFalseTrail(c: Wc) {
    c == TBASE || c == TBASE + TCOUNT
  }

  /** Such an end is combined with a syllable as if it were one. */
  predicate FalseJoin(a: Wc, b: Wc) {
    IsFalseTrail(b) && CombineHangul(a, b).Some?
  }

  lemma {:induction false} CombineKept(cc: Classes, pairs: Pairs, full: Full, a: Wc, b: Wc)
    requires PairsOk(cc, pairs, full) && Combine(pairs, a, b).Some? && !FalseJoin(a, b)
    ensures Kept(cc, Canon(full, a) + Canon(full, b), Canon(full, Combine(pairs, a, b).value))
  {
    hide Kept;
    if CombineHangul(a, b).Some? {
      HangulParts(a, b);
      var c := CombineHangul(a, b).value;
      assert Canon(full, b) == [b];
      if !IsSyllable(a) { assert Canon(full, a) == [a]; }
      assert Canon(full, a) + Canon(full, b) == Jamo(c);
      KeptRefl(cc, Jamo(c));
    }
  }

  lemma {:induction false} HangulParts(a: Wc, b: Wc)
    requires CombineHangul(a, b).Some? && !IsFalseTrail(b)
    ensures var c := CombineHangul(a, b).value;
      && IsSyllable(c) && IsJamo(b) && !IsSyllable(b)
      && Jamo(c) == (if IsSyllable(a) then Jamo(a) else [a]) + [b]
      && (!IsSyllable(a) ==> IsJamo(a))
  {
    var l, v := a - LBASE, b - VBASE;
    if 0 <= l < LCOUNT && 0 <= v < VCOUNT { LeadingVowel(a, b); } else { SyllableTrail(a, b); }
  }

  lemma {:induction false} LeadingVowel(a: Wc, b: Wc)
    requires LBASE <= a < LBASE + LCOUNT && VBASE <= b < VBASE + VCOUNT
    ensures CombineHangul(a, b).Some? && IsSyllable(CombineHangul(a, b).value)
      && Jamo(CombineHangul(a, b).value) == [a, b]
  {
    var l, v := a - LBASE, b - VBASE;
    assert CombineHangul(a, b).value - SBASE == NCOUNT * l + TCOUNT * v;
    SplitIndex(l, v, 0);
  }

  lemma {:induction false} SyllableTrail(a: Wc, b: Wc)
    requires IsSyllable(a) && (a - SBASE) % TCOUNT == 0 && TBASE < b < TBASE + TCOUNT
    ensures CombineHangul(a, b) == Some(a + (b - TBASE)) && IsSyllable(a + (b - TBASE))
    ensures Jamo(a + (b - TBASE)) == Jamo(a) + [b]
  {
    var l, v := OpenSyllable(a);
    JamoOf(l, v, 0);
    JamoOf(l, v, b - TBASE);
  }

  /** The leading consonant and the vowel of a syllable without a trailing consonant. */
  lemma {:induction false} OpenSyllable(a: Wc) returns (l: nat, v: nat)
    requires IsSyllable(a) && (a - SBASE) % TCOUNT == 0
    ensures l < LCOUNT && v < VCOUNT && a - SBASE == NCOUNT * l + TCOUNT * v
  {
    var q := (a - SBASE) / TCOUNT;
    l, v := q / VCOUNT, q % VCOUNT;
    assert a - SBASE == TCOUNT * q && q == VCOUNT * l + v;
  }

  lemma {:induction false} JamoOf(l: nat, v: nat, t: nat)
    requires l < LCOUNT && v < VCOUNT && t < TCOUNT
    ensures var i := NCOUNT * l + TCOUNT * v + t;
      i < SCOUNT && Jamo(SBASE + i) == [LBASE + l, VBASE + v] + (if t == 0 then [] else [TBASE + t])
  {
    SplitIndex(l, v, t);
  }

  lemma {:induction false} CanonCons(full: Full, x: Wc, s: seq<Wc>)
    ensures CanonAll(full, [x] + s) == Canon(full, x) + CanonAll(full, s)
  {
    hide Canon;
    assert ([x] + s)[1..] == s;
  }

  lemma {:induction false} CanonNone(full: Full)
    ensures CanonAll(full, []) == []
  {
  }

  lemma {:induction false} CanonJoin(full: Full, s: seq<Wc>, t: seq<Wc>)
    ensures CanonAll(full, s + t) == CanonAll(full, s) + CanonAll(full, t)
  {
    hide CanonAll;
    CanonNone(full);
    if s == [] {
      assert s + t == t;
    } else {
      CanonJoin(full, s[1..], t);
      CanonCons(full, s[0], s[1..] + t);
      CanonCons(full, s[0], s[1..]);
      assert s + t == [s[0]] + (s[1..] + t) && s == [s[0]] + s[1..];
    }
  }

  lemma {:induction false} CanonSelf(full: Full, s: seq<Wc>)
    requires forall x <- s :: Canon(full, x) == [x]
    ensures CanonAll(full, s) == s
  {
    hide Canon;
    if s != [] {
      assert s[0] in s;
      CanonSelf(full, s[1..]);
    }
  }

  /** A mark may move left past marks of other classes. */
  lemma {:induction false} MoveLeft(cc: Classes, m: seq<Wc>, b: Wc)
    requires m == [] || (cc(b) != 0 && forall x <- m :: cc(x) != 0 && cc(x) != cc(b))
    ensures Kept(cc, m + [b], [b] + m)
    decreases |m|
  {
    hide Proj;
    if m == [] {
      assert m + [b] == [b] + m;
      KeptRefl(cc, [b]);
    } else {
      var n := |m| - 1;
      var x := m[n];
      assert x in m;
      MoveLeft(cc, m[..n], b);
      KeptRefl(cc, m[..n]);
      KeptRefl(cc, [x]);
      SwapKept(cc, x, b);
      KeptJoin(cc, m[..n], m[..n], [x, b], [b, x]);
      KeptJoin(cc, m[..n] + [b], [b] + m[..n], [x], [x]);
      assert m + [b] == m[..n] + [x, b];
      assert m[..n] + [b, x] == m[..n] + [b] + [x];
      assert [b] + m[..n] + [x] == [b] + m;
      KeptThen(cc, m + [b], m[..n] + [b, x], [b] + m);
    }
  }

  lemma {:induction false} KeptAround(cc: Classes, low: seq<Wc>, x: seq<Wc>, y: seq<Wc>, high: seq<Wc>)
    requires Kept(cc, x, y)
    ensures Kept(cc, low + x + high, low + y + high)
  {
    hide Kept;
    KeptRefl(cc, low);
    KeptRefl(cc, high);
    KeptJoin(cc, low, low, x, y);
    KeptJoin(cc, low + x, low + y, high, high);
  }

  lemma {:induction false} KeptMiddle(cc: Classes, fa: seq<Wc>, fc: seq<Wc>, m: seq<Wc>, b: Wc)
    requires Kept(cc, fa + [b], fc) && Kept(cc, m + [b], [b] + m)
    ensures Kept(cc, fa + (m + [b]), fc + m)
  {
    hide Kept;
    KeptRefl(cc, fa);
    KeptRefl(cc, m);
    KeptJoin(cc, fa, fa, m + [b], [b] + m);
    KeptJoin(cc, fa + [b], fc, m, m);
    assert fa + ([b] + m) == fa + [b] + m;
    KeptThen(cc, fa + (m + [b]), fa + [b] + m, fc + m);
  }

  /** Composing a with a later b, across marks of other classes, keeps the text equivalent. */
  lemma {:induction false} JoinKept(cc: Classes, pairs: Pairs, full: Full, p: seq<Wc>, a: Wc, m: seq<Wc>, b: Wc,
                                    q: seq<Wc>)
    requires PairsOk(cc, pairs, full) && Combine(pairs, a, b).Some? && !FalseJoin(a, b)
    requires (forall x <- m :: Canon(full, x) == [x]) && Canon(full, b) == [b]
    requires m == [] || (cc(b) != 0 && forall x <- m :: cc(x) != 0 && cc(x) != cc(b))
    ensures Kept(cc, CanonAll(full, p + [a] + m + [b] + q), CanonAll(full, p + [Combine(pairs, a, b).value] + m + q))
  {
    hide Kept, Combine, Canon, PairsOk, CanonAll;
    var c := Combine(pairs, a, b).value;
    var fa, fc, fp, fq := Canon(full, a), Canon(full, c), CanonAll(full, p), CanonAll(full, q);
    Unfold(full, p, a, m + [b], q);
    Unfold(full, p, c, m, q);
    assert p + [a] + (m + [b]) + q == p + [a] + m + [b] + q;
    CanonSelf(full, m);
    CanonSelf(full, m + [b]);
    MoveLeft(cc, m, b);
    CombineKept(cc, pairs, full, a, b);
    KeptMiddle(cc, fa, fc, m, b);
    KeptAround(cc, fp, fa + (m + [b]), fc + m, fq);
    assert fp + (fa + (m + [b])) + fq == fp + fa + (m + [b]) + fq;
    assert fp + (fc + m) + fq == fp + fc + m + fq;
  }

  lemma {:induction false} Unfold(full: Full, p: seq<Wc>, a: Wc, m: seq<Wc>, q: seq<Wc>)
    ensures CanonAll(full, p + [a] + m + q)
      == CanonAll(full, p) + Canon(full, a) + CanonAll(full, m) + CanonAll(full, q)
  {
    hide Canon;
    CanonJoin(full, p + [a] + m, q);
    CanonJoin(full, p + [a], m);
    CanonJoin(full, p, [a]);
    assert [a][1..] == [];
    assert CanonAll(full, [a]) == Canon(full, a) + [];
  }

  // ---- Along the loop ------------------------------------------------------------------------------------

  function Since(s: seq<Wc>, last: nat, i: nat): seq<Wc>
    requires i <= |s|
  {
    if last < i then s[last + 1..i] else []
  }

  /** Every join the loop makes is of neighbours, or of a mark with what marks separate it from; and none
      takes a false trailing consonant for one. */
  predicate Lawful(cc: Classes, pairs: Pairs, s: seq<Wc>, i: nat, last: nat, lastCc: nat)
    requires i == last == 0 || last < i <= |s|
    decreases |s| - i
  {
    if i >= |s| then true
    else if i > 0 && (lastCc == 0 || lastCc != cc(s[i])) && Combine(pairs, s[last], s[i]).Some? then
      var s' := Without(s[last := Combine(pairs, s[last], s[i]).value], i);
      && !FalseJoin(s[last], s[i]) && (Since(s, last, i) == [] || cc(s[i]) != 0)
      && Lawful(cc, pairs, s', i, last, if i - 1 == last then 0 else cc(s'[i - 2]))
    else
      Lawful(cc, pairs, s, i + 1, if cc(s[i]) == 0 then i else last, cc(s[i]))
  }

  /** What is to come after a character of class prev. */
  ghost predicate Coming(cc: Classes, rest: seq<Wc>, prev: nat) {
    (rest != [] ==> cc(rest[0]) == 0 || prev <= cc(rest[0])) && Ordered(cc, rest)
  }

  lemma {:induction false} ComingOn(cc: Classes, rest: seq<Wc>, prev: nat)
    requires Coming(cc, rest, prev) && rest != []
    ensures Coming(cc, rest[1..], cc(rest[0])) && (cc(rest[0]) == 0 || prev <= cc(rest[0]))
  {
    if |rest| > 1 { assert rest[1..][0] == rest[1]; }
  }

  /** What has been passed over since the last starter: marks in order, none above prev, the class of
      the character before. The class remembered is that of the last of them, or else all of them are
      of lower classes than prev. */
  ghost predicate Passed(cc: Classes, m: seq<Wc>, lastCc: nat, prev: nat) {
    && (forall x <- m :: 0 < cc(x) <= prev) && Ordered(cc, m)
    && (m != [] ==> lastCc == cc(m[|m| - 1]) || forall x <- m :: cc(x) < prev)
  }

  ghost predicate Plain(full: Full, s: seq<Wc>) {
    forall x <- s :: Canon(full, x) == [x]
  }

  /** The loop at position i. prev is the class of the character that came before, before any
      composition. */
  ghost predicate Along(cc: Classes, full: Full, s: seq<Wc>, i: nat, last: nat, lastCc: nat, prev: nat) {
    && (i == last == 0 || last < i) && i <= |s|
    && Passed(cc, Since(s, last, i), lastCc, prev) && Coming(cc, s[i..], prev)
    && Plain(full, Since(s, last, i)) && Plain(full, s[i..])
  }

  lemma {:induction false} AlongBounds(cc: Classes, full: Full, s: seq<Wc>, i: nat, last: nat, lastCc: nat, prev: nat)
    requires Along(cc, full, s, i, last, lastCc, prev)
    ensures (i == last == 0 || last < i) && i <= |s|
  {
  }

  lemma {:induction false} AlongKept(cc: Classes, pairs: Pairs, full: Full, s: seq<Wc>, i: nat, last: nat,
                                     lastCc: nat, prev: nat)
    requires PairsOk(cc, pairs, full) && Along(cc, full, s, i, last, lastCc, prev)
    requires Lawful(cc, pairs, s, i, last, lastCc)
    ensures Kept(cc, CanonAll(full, s), CanonAll(full, ComposeFrom(cc, pairs, s, i, last, lastCc)))
    decreases |s| - i
  {
    hide FalseJoin, Since, Kept, Combine, Canon, PairsOk, CanonAll, Along, Without;
    AlongBounds(cc, full, s, i, last, lastCc, prev);
    if i >= |s| {
      KeptRefl(cc, CanonAll(full, s));
    } else if i > 0 && (lastCc == 0 || lastCc != cc(s[i])) && Combine(pairs, s[last], s[i]).Some? {
      var c := Combine(pairs, s[last], s[i]).value;
      var s' := Without(s[last := c], i);
      WithoutSize(s[last := c], i);
      var lastCc' := if i - 1 == last then 0 else cc(s'[i - 2]);
      StepJoined(cc, pairs, full, s, i, last, lastCc, prev);
      AlongKept(cc, pairs, full, s', i, last, lastCc', cc(s[i]));
      KeptThen(cc, CanonAll(full, s), CanonAll(full, s'), CanonAll(full, ComposeFrom(cc, pairs, s', i, last, lastCc')));
    } else {
      StepPassed(cc, full, s, i, last, lastCc, prev);
      AlongKept(cc, pairs, full, s, i + 1, if cc(s[i]) == 0 then i else last, cc(s[i]), cc(s[i]));
    }
  }

  lemma {:induction false} StepPassed(cc: Classes, full: Full, s: seq<Wc>, i: nat, last: nat, lastCc: nat, prev: nat)
    requires Along(cc, full, s, i, last, lastCc, prev) && i < |s|
    ensures Along(cc, full, s, i + 1, if cc(s[i]) == 0 then i else last, cc(s[i]), cc(s[i]))
  {
    hide Passed, Coming, Plain;
    var m, last' := Since(s, last, i), if cc(s[i]) == 0 then i else last;
    assert s[i..][1..] == s[i + 1..] && s[i..][0] == s[i];
    ComingOn(cc, s[i..], prev);
    PlainOn(full, m, s[i..]);
    PassedOn(cc, m, lastCc, prev, s[i]);
    assert Since(s, last', i + 1) == if cc(s[i]) == 0 || i == 0 then [] else m + [s[i]];
  }

  lemma {:induction false} PlainOn(full: Full, m: seq<Wc>, rest: seq<Wc>)
    requires Plain(full, m) && Plain(full, rest) && rest != []
    ensures Plain(full, rest[1..]) && Plain(full, m + [rest[0]]) && Plain(full, [])
  {
    hide Canon, IsFalseTrail;
    assert rest[0] in rest;
  }

  lemma {:induction false} PassedOn(cc: Classes, m: seq<Wc>, lastCc: nat, prev: nat, x: Wc)
    requires Passed(cc, m, lastCc, prev) && (cc(x) == 0 || prev <= cc(x))
    ensures Passed(cc, [], cc(x), cc(x)) && (cc(x) != 0 ==> Passed(cc, m + [x], cc(x), cc(x)))
  {
    if m != [] { assert m[|m| - 1] in m; }
  }

  /** The text after one composition, split at the characters that took part. */
  lemma {:induction false} Joined(s: seq<Wc>, i: nat, last: nat, c: Wc)
    requires last < i < |s|
    ensures var s' := Without(s[last := c], i);
      var p, m, q := s[..last], Since(s, last, i), s[i + 1..];
      && s == p + [s[last]] + m + [s[i]] + q && s' == p + [c] + m + q && s'[i..] == q && |s'| == |s| - 1
      && Since(s', last, i) == m && s[i..] == [s[i]] + q && |m| == i - last - 1
      && (m != [] ==> s'[i - 1] == m[|m| - 1]) && (|m| > 1 ==> s'[i - 2] == m[|m| - 2])
  {
    hide Without;
    JoinedText(s, i, last, c);
    var p, m, q := s[..last], Since(s, last, i), s[i + 1..];
    var s' := p + [c] + m + q;
    assert s'[last + 1..i] == m && s'[i..] == q;
    assert s[i..] == [s[i]] + q;
  }

  lemma {:induction false} JoinedText(s: seq<Wc>, i: nat, last: nat, c: Wc)
    requires last < i < |s|
    ensures var p, m, q := s[..last], Since(s, last, i), s[i + 1..];
      s == p + [s[last]] + m + [s[i]] + q && Without(s[last := c], i) == p + [c] + m + q
  {
  }

  lemma {:induction false} StepJoined(cc: Classes, pairs: Pairs, full: Full, s: seq<Wc>, i: nat, last: nat,
                                      lastCc: nat, prev: nat)
    requires PairsOk(cc, pairs, full) && Along(cc, full, s, i, last, lastCc, prev)
    requires 0 < i < |s| && (lastCc == 0 || lastCc != cc(s[i])) && Combine(pairs, s[last], s[i]).Some?
    requires !FalseJoin(s[last], s[i]) && (Since(s, last, i) == [] || cc(s[i]) != 0)
    ensures var s' := Without(s[last := Combine(pairs, s[last], s[i]).value], i);
      && Along(cc, full, s', i, last, if i - 1 == last then 0 else cc(s'[i - 2]), cc(s[i]))
      && Kept(cc, CanonAll(full, s), CanonAll(full, s'))
  {
    hide Kept, Combine, Canon, PairsOk, CanonAll, FalseJoin, Without, Since, Coming, Passed;
    var c := Combine(pairs, s[last], s[i]).value;
    var m, rest := Since(s, last, i), s[i..];
    Joined(s, i, last, c);
    assert rest[1..] == s[i + 1..] && s[i] in rest;
    MarksLower(cc, m, rest, lastCc, prev);
    ComingOn(cc, rest, prev);
    if m != [] { assert m[0] in m; }
    StillPassed(cc, m, lastCc, prev, if i - 1 == last then 0 else cc(Without(s[last := c], i)[i - 2]), cc(s[i]));
    JoinKept(cc, pairs, full, s[..last], s[last], m, s[i], s[i + 1..]);
  }

  lemma {:induction false} StillPassed(cc: Classes, m: seq<Wc>, lastCc: nat, prev: nat, lastCc': nat, prev': nat)
    requires Passed(cc, m, lastCc, prev) && forall x <- m :: cc(x) < prev'
    ensures Passed(cc, m, lastCc', prev')
  {
  }

  /** What lies between the last starter and a mark that composes with it is of lower classes. */
  lemma {:induction false} MarksLower(cc: Classes, m: seq<Wc>, rest: seq<Wc>, lastCc: nat, prev: nat)
    requires Passed(cc, m, lastCc, prev) && rest != [] && Coming(cc, rest, prev)
    requires (lastCc == 0 || lastCc != cc(rest[0])) && (m == [] || cc(rest[0]) != 0)
    ensures forall x <- m :: 0 < cc(x) < cc(rest[0])
  {
    if m != [] {
      assert m[|m| - 1] in m;
      if lastCc == cc(m[|m| - 1]) { UpTo(cc, m); }
    }
  }

  /** The last of some marks in order is of the highest class. */
  lemma {:induction false} UpTo(cc: Classes, m: seq<Wc>)
    requires m != [] && Ordered(cc, m) && forall x <- m :: 0 < cc(x)
    ensures forall x <- m :: cc(x) <= cc(m[|m| - 1])
    decreases |m|
  {
    if |m| > 1 {
      var n := |m| - 1;
      assert m == m[..n] + [m[n]] && m[n] in m;
      UpTo(cc, m[..n]);
    }
  }

  // ---- What no join undoes --------------------------------------------------------------------------------

  function Starters(cc: Classes, s: seq<Wc>): nat {
    if s == [] then 0 else (if cc(s[0]) == 0 then 1 else 0) + Starters(cc, s[1..])
  }

  function Marks(cc: Classes, s: seq<Wc>): nat {
    if s == [] then 0 else (if cc(s[0]) == 0 then 0 else 1) + Marks(cc, s[1..])
  }

  /** How many pairs of a mark and a later starter there are. */
  function Crossings(cc: Classes, s: seq<Wc>): nat {
    if s == [] then 0 else (if cc(s[0]) == 0 then 0 else Starters(cc, s[1..])) + Crossings(cc, s[1..])
  }

  lemma {:induction false} CrossJoin(cc: Classes, s: seq<Wc>, t: seq<Wc>)
    ensures Starters(cc, s + t) == Starters(cc, s) + Starters(cc, t)
    ensures Marks(cc, s + t) == Marks(cc, s) + Marks(cc, t)
    ensures Crossings(cc, s + t) == Crossings(cc, s) + Crossings(cc, t) + Marks(cc, s) * Starters(cc, t)
  {
    if s == [] {
      assert s + t == t;
    } else {
      CrossJoin(cc, s[1..], t);
      assert (s + t)[1..] == s[1..] + t;
      if cc(s[0]) != 0 { OneMoreTimes(Marks(cc, s[1..]), Starters(cc, t)); }
    }
  }

  lemma {:induction false} OneMoreTimes(m: nat, k: nat)
    ensures (m + 1) * k == m * k + k
  {
  }

  lemma {:induction false} CrossOne(cc: Classes, x: Wc)
    ensures Crossings(cc, [x]) == 0 && Starters(cc, [x]) == (if cc(x) == 0 then 1 else 0)
    ensures Marks(cc, [x]) == (if cc(x) == 0 then 0 else 1)
  {
    assert [x][1..] == [];
  }

  lemma {:induction false} CrossInsert(cc: Classes, t: seq<Wc>, x: Wc)
    ensures var u := Insert(cc, t, x);
      && Starters(cc, u) == Starters(cc, t + [x]) && Marks(cc, u) == Marks(cc, t + [x])
      && Crossings(cc, u) == Crossings(cc, t + [x])
    decreases |t|
  {
    hide Starters, Marks, Crossings;
    if !(t == [] || cc(x) == 0 || cc(t[|t| - 1]) <= cc(x)) {
      var n := |t| - 1;
      var low, y := t[..n], t[n];
      CrossInsert(cc, low, x);
      CrossOne(cc, x);
      CrossOne(cc, y);
      CrossJoin(cc, Insert(cc, low, x), [y]);
      CrossJoin(cc, low, [x]);
      CrossJoin(cc, low, [y]);
      CrossJoin(cc, t, [x]);
      assert t == low + [y];
    }
  }

  lemma {:induction false} CrossOrder(cc: Classes, s: seq<Wc>)
    ensures var u := Order(cc, s);
      Starters(cc, u) == Starters(cc, s) && Marks(cc, u) == Marks(cc, s) && Crossings(cc, u) == Crossings(cc, s)
    decreases |s|
  {
    hide Starters, Marks, Crossings, Insert;
    if s != [] {
      var n := |s| - 1;
      CrossOrder(cc, s[..n]);
      CrossInsert(cc, Order(cc, s[..n]), s[n]);
      CrossJoin(cc, Order(cc, s[..n]), [s[n]]);
      CrossJoin(cc, s[..n], [s[n]]);
      assert s == s[..n] + [s[n]];
    }
  }

  /** Exchanging marks of different classes changes none of these counts. */
  lemma {:induction false} CrossKept(cc: Classes, s: seq<Wc>, t: seq<Wc>)
    requires Kept(cc, s, t)
    ensures |s| == |t| && Crossings(cc, s) == Crossings(cc, t)
    ensures Starters(cc, s) == Starters(cc, t) && Marks(cc, s) == Marks(cc, t)
  {
    hide Kept, Order, Starters, Marks, Crossings;
    SameOrder(cc, s, t);
    CrossOrder(cc, s);
    CrossOrder(cc, t);
    assert |s| == |Order(cc, s)| == |Order(cc, t)| == |t|;
  }

  lemma {:induction false} OnlyMarks(cc: Classes, m: seq<Wc>)
    requires forall x <- m :: cc(x) != 0
    ensures Starters(cc, m) == 0 && Crossings(cc, m) == 0 && Marks(cc, m) == |m|
  {
    if m != [] {
      assert m[0] in m;
      OnlyMarks(cc, m[1..]);
    }
  }

  /** Text e is shorter than d, or as long with no more crossings; and one of the two is less if `less`. */
  predicate Below(cc: Classes, d: seq<Wc>, e: seq<Wc>, less: bool) {
    || |e| < |d|
    || (|e| == |d| && Crossings(cc, e) <= Crossings(cc, d) && (less ==> Crossings(cc, e) != Crossings(cc, d)))
  }

  /** What a false trailing consonant is joined to takes no more room than before. */
  lemma {:induction false} FalseJoinShrinks(pairs: Pairs, full: Full, a: Wc, b: Wc)
    requires FalseJoin(a, b) && |full(SBASE + SCOUNT)| <= 2
    ensures Combine(pairs, a, b).Some? && |Canon(full, Combine(pairs, a, b).value)| <= |Canon(full, a)|
  {
    if b != TBASE {
      var s := a - SBASE;
      assert s % TCOUNT == 0 && (s + TCOUNT) % TCOUNT == 0;
    }
  }

  lemma {:induction false} CrossAround(cc: Classes, p: seq<Wc>, u: seq<Wc>, v: seq<Wc>, q: seq<Wc>)
    requires Marks(cc, u) == Marks(cc, v) && Starters(cc, u) == Starters(cc, v)
    ensures Crossings(cc, p + u + q) - Crossings(cc, u) == Crossings(cc, p + v + q) - Crossings(cc, v)
  {
    hide Starters, Marks, Crossings;
    CrossJoin(cc, p, u);
    CrossJoin(cc, p, v);
    CrossJoin(cc, p + u, q);
    CrossJoin(cc, p + v, q);
  }

  /** Moving b left past marks, and joining it there: nothing is lost but the crossings of a starter. */
  lemma {:induction false} CrossMoved(cc: Classes, fa: seq<Wc>, fc: seq<Wc>, m: seq<Wc>, b: Wc)
    requires Kept(cc, fa + [b], fc) && forall x <- m :: cc(x) != 0
    ensures var u, v := fa + (m + [b]), fc + m;
      && |u| == |v| && Marks(cc, u) == Marks(cc, v) && Starters(cc, u) == Starters(cc, v)
      && Crossings(cc, u) == Crossings(cc, v) + (if cc(b) == 0 then |m| else 0)
  {
    hide Kept, Starters, Marks, Crossings;
    CrossKept(cc, fa + [b], fc);
    OnlyMarks(cc, m);
    CrossOne(cc, b);
    CrossJoin(cc, fa, [b]);
    CrossJoin(cc, m, [b]);
    CrossJoin(cc, fa, m + [b]);
    CrossJoin(cc, fc, m);
  }

  /** A join never raises length and crossings, and lowers them if it is unlawful. */
  lemma {:induction false} JoinBelow(cc: Classes, pairs: Pairs, full: Full, p: seq<Wc>, a: Wc, m: seq<Wc>, b: Wc,
                                     q: seq<Wc>)
    requires PairsOk(cc, pairs, full) && Combine(pairs, a, b).Some? && |full(SBASE + SCOUNT)| <= 2
    requires (forall x <- m :: Canon(full, x) == [x] && cc(x) != 0) && Canon(full, b) == [b]
    ensures Below(cc, CanonAll(full, p + [a] + m + [b] + q), CanonAll(full, p + [Combine(pairs, a, b).value] + m + q),
                  FalseJoin(a, b) || (m != [] && cc(b) == 0))
  {
    hide Kept, Combine, Canon, PairsOk, CanonAll, FalseJoin, Crossings;
    var c := Combine(pairs, a, b).value;
    var fa, fc, fp, fq := Canon(full, a), Canon(full, c), CanonAll(full, p), CanonAll(full, q);
    Unfold(full, p, a, m + [b], q);
    Unfold(full, p, c, m, q);
    assert p + [a] + (m + [b]) + q == p + [a] + m + [b] + q;
    CanonSelf(full, m);
    CanonSelf(full, m + [b]);
    if FalseJoin(a, b) {
      FalseJoinShrinks(pairs, full, a, b);
    } else {
      CombineKept(cc, pairs, full, a, b);
      CrossMoved(cc, fa, fc, m, b);
      CrossAround(cc, fp, fa + (m + [b]), fc + m, fq);
      assert fp + (fa + (m + [b])) + fq == fp + fa + (m + [b]) + fq;
      assert fp + (fc + m) + fq == fp + fc + m + fq;
    }
  }

  /** All that is needed of the loop for that, which unlawful joins keep as well. */
  ghost predicate Roughly(cc: Classes, full: Full, s: seq<Wc>, i: nat, last: nat) {
    && (i == last == 0 || last < i) && i <= |s|
    && (forall x <- Since(s, last, i) :: cc(x) != 0) && Plain(full, Since(s, last, i)) && Plain(full, s[i..])
  }

  lemma {:induction false} RoughlyPassed(cc: Classes, full: Full, s: seq<Wc>, i: nat, last: nat)
    requires Roughly(cc, full, s, i, last) && i < |s|
    ensures Roughly(cc, full, s, i + 1, if cc(s[i]) == 0 then i else last)
  {
    hide Plain;
    var m, last' := Since(s, last, i), if cc(s[i]) == 0 then i else last;
    assert s[i..][1..] == s[i + 1..] && s[i..][0] == s[i];
    PlainOn(full, m, s[i..]);
    assert Since(s, last', i + 1) == if cc(s[i]) == 0 || i == 0 then [] else m + [s[i]];
  }

  lemma {:induction false} RoughlyJoined(cc: Classes, pairs: Pairs, full: Full, s: seq<Wc>, i: nat, last: nat)
    requires PairsOk(cc, pairs, full) && Roughly(cc, full, s, i, last) && |full(SBASE + SCOUNT)| <= 2
    requires 0 < i < |s| && Combine(pairs, s[last], s[i]).Some?
    ensures var s' := Without(s[last := Combine(pairs, s[last], s[i]).value], i);
      && Roughly(cc, full, s', i, last)
      && Below(cc, CanonAll(full, s), CanonAll(full, s'), FalseJoin(s[last], s[i])
        || (Since(s, last, i) != [] && cc(s[i]) == 0))
  {
    hide Combine, Canon, PairsOk, CanonAll, FalseJoin, Without, Since, Below;
    var m, rest := Since(s, last, i), s[i..];
    Joined(s, i, last, Combine(pairs, s[last], s[i]).value);
    assert rest[1..] == s[i + 1..] && s[i] in rest;
    PlainOn(full, m, rest);
    JoinBelow(cc, pairs, full, s[..last], s[last], m, s[i], s[i + 1..]);
  }

  /** Unlawful joins leave the text below what it was, whatever follows. */
  lemma {:induction false} NeverUp(cc: Classes, pairs: Pairs, full: Full, s: seq<Wc>, i: nat, last: nat, lastCc: nat)
    requires PairsOk(cc, pairs, full) && Roughly(cc, full, s, i, last) && |full(SBASE + SCOUNT)| <= 2
    ensures i == last == 0 || last < i <= |s|
    ensures Below(cc, CanonAll(full, s), CanonAll(full, ComposeFrom(cc, pairs, s, i, last, lastCc)),
                  !Lawful(cc, pairs, s, i, last, lastCc))
    decreases |s| - i
  {
    hide Combine, Canon, PairsOk, CanonAll, FalseJoin, Without, Since, Plain, Crossings;
    if i >= |s| {
    } else if i > 0 && (lastCc == 0 || lastCc != cc(s[i])) && Combine(pairs, s[last], s[i]).Some? {
      var s' := Without(s[last := Combine(pairs, s[last], s[i]).value], i);
      WithoutSize(s[last := Combine(pairs, s[last], s[i]).value], i);
      RoughlyJoined(cc, pairs, full, s, i, last);
      NeverUp(cc, pairs, full, s', i, last, if i - 1 == last then 0 else cc(s'[i - 2]));
    } else {
      RoughlyPassed(cc, full, s, i, last);
      NeverUp(cc, pairs, full, s, i + 1, if cc(s[i]) == 0 then i else last, cc(s[i]));
    }
  }

  /** Composing a decomposed and ordered text gives a canonically equivalent one if and only if every join
      made on the way is lawful. */
  lemma {:induction false} ComposeMeaning(cc: Classes, pairs: Pairs, full: Full, s: seq<Wc>)
    requires PairsOk(cc, pairs, full) && Ordered(cc, s) && Plain(full, s) && |full(SBASE + SCOUNT)| <= 2
    ensures Kept(cc, s, CanonAll(full, Compose(cc, pairs, s))) <==> Lawful(cc, pairs, s, 0, 0, 0)
  {
    hide Combine, Canon, PairsOk, Kept, ComposeFrom, Lawful, Crossings;
    assert s[0..] == s;
    CanonSelf(full, s);
    if Lawful(cc, pairs, s, 0, 0, 0) {
      AlongKept(cc, pairs, full, s, 0, 0, 0, 0);
    } else {
      NeverUp(cc, pairs, full, s, 0, 0, 0);
      if Kept(cc, s, CanonAll(full, Compose(cc, pairs, s))) {
        CrossKept(cc, s, CanonAll(full, Compose(cc, pairs, s)));
      }
    }
  }

  lemma {:induction false} DecomposeIsCanon(table: seq<Entry>, compat: bool, full: Full, cs: seq<Wc>)
    requires forall x <- cs :: Decompose(table, compat, x) == Canon(full, x)
    ensures DecomposeAll(table, compat, cs) == CanonAll(full, cs)
    decreases |cs|
  {
    hide Decompose, Canon;
    if cs == [] {
    } else {
      var n := |cs| - 1;
      assert cs == cs[..n] + [cs[n]] && cs[n] in cs;
      DecomposeIsCanon(table, compat, full, cs[..n]);
      CanonJoin(full, cs[..n], [cs[n]]);
      CanonCons(full, cs[n], []);
      CanonNone(full);
      assert [cs[n]] + [] == [cs[n]];
    }
  }

  /** Normalizing a second time changes nothing, where the joins made the first time were lawful and the
      tables decompose the result as the composition table presumes. */
  lemma {:induction false} NormalAgain(table: seq<Entry>, compat: bool, cc: Classes, pairs: Pairs, full: Full,
                                       cs: seq<Wc>)
    requires PairsOk(cc, pairs, full) && |full(SBASE + SCOUNT)| <= 2
    requires var d := Order(cc, DecomposeAll(table, compat, cs));
      Plain(full, d) && Lawful(cc, pairs, d, 0, 0, 0)
    requires forall x <- Normal(table, compat, true, cc, pairs, cs) :: Decompose(table, compat, x) == Canon(full, x)
    ensures var once := Normal(table, compat, true, cc, pairs, cs);
      Normal(table, compat, true, cc, pairs, once) == once
  {
    hide PairsOk, Plain, Lawful, Decompose, DecomposeAll, Canon, CanonAll, Order, ComposeFrom, Kept, Proj;
    var d := Order(cc, DecomposeAll(table, compat, cs));
    var once := Compose(cc, pairs, d);
    OrderSorts(cc, DecomposeAll(table, compat, cs));
    ComposeMeaning(cc, pairs, full, d);
    DecomposeIsCanon(table, compat, full, once);
    SameOrder(cc, d, CanonAll(full, once));
    OrderAgain(cc, DecomposeAll(table, compat, cs));
  }

  // ---- The two unlawful joins ------------------------------------------------------------------------------

  /** The end of the range below the trailing consonants is joined to a syllable as if it were one, and
      is lost. */
  lemma {:induction false} FalseTrail()
    ensures var cc: Classes := c => 0;
      var pairs: Pairs := (a, b) => None;
      var full: Full := c => [c];
      var s: seq<Wc> := [0x1100, 0x1161, 0x11A7];
      && PairsOk(cc, pairs, full) && Ordered(cc, s) && Plain(full, s)
      && Compose(cc, pairs, s) == [0xAC00] && !Kept(cc, s, CanonAll(full, Compose(cc, pairs, s)))
  {
    hide ComposeFrom, CanonAll, Kept, Jamo;
    var cc: Classes := c => 0;
    var pairs: Pairs := (a, b) => None;
    var full: Full := c => [c];
    TrailJoined(cc, pairs);
    CanonCons(full, 0xAC00, []);
    CanonNone(full);
    assert [0xAC00] + [] == [0xAC00];
    FirstSyllable();
    if Kept(cc, [0x1100, 0x1161, 0x11A7], CanonAll(full, [0xAC00])) {
      CrossKept(cc, [0x1100, 0x1161, 0x11A7], CanonAll(full, [0xAC00]));
    }
  }

  lemma {:induction false} TrailJoined(cc: Classes, pairs: Pairs)
    requires cc(0x1100) == 0 && cc(0x1161) == 0 && cc(0x11A7) == 0
    ensures Compose(cc, pairs, [0x1100, 0x1161, 0x11A7]) == [0xAC00]
  {
    hide ComposeFrom;
    var s: seq<Wc> := [0x1100, 0x1161, 0x11A7];
    StepOn(cc, pairs, s, 0, 0, 0);
    assert Without(s[0 := 0xAC00], 1) == [0xAC00, 0x11A7];
    StepJoin(cc, pairs, s, 1, 0, 0);
    assert Without([0xAC00, 0x11A7][0 := 0xAC00], 1) == [0xAC00];
    StepJoin(cc, pairs, [0xAC00, 0x11A7], 1, 0, 0);
    FromEnd(cc, pairs, [0xAC00], 0, 0);
  }

  lemma {:induction false} FirstSyllable()
    ensures Jamo(0xAC00) == [0x1100, 0x1161]
  {
  }

  /** A leading consonant, a mark, and a vowel compose to a syllable and the mark, whose decomposition
      is another text. */
  lemma {:induction false} AcrossMark()
    ensures var cc: Classes := c => if c == 0x300 then 230 else 0;
      var pairs: Pairs := (a, b) => None;
      var full: Full := c => [c];
      var s: seq<Wc> := [0x1100, 0x300, 0x1161];
      && PairsOk(cc, pairs, full) && Ordered(cc, s) && Plain(full, s)
      && Compose(cc, pairs, s) == [0xAC00, 0x300] && !Kept(cc, s, CanonAll(full, Compose(cc, pairs, s)))
  {
    hide CanonAll, Jamo, ComposeFrom, Kept;
    var cc: Classes := c => if c == 0x300 then 230 else 0;
    var pairs: Pairs := (a, b) => None;
    var full: Full := c => [c];
    MarkJoined(cc, pairs);
    MarkMoved(cc, full);
  }

  lemma {:induction false} MarkJoined(cc: Classes, pairs: Pairs)
    requires cc(0x300) == 230 && cc(0x1100) == 0 && cc(0x1161) == 0 && pairs(0x1100, 0x300) == None
    ensures Compose(cc, pairs, [0x1100, 0x300, 0x1161]) == [0xAC00, 0x300]
  {
    hide ComposeFrom;
    var s: seq<Wc> := [0x1100, 0x300, 0x1161];
    StepOn(cc, pairs, s, 0, 0, 0);
    StepOn(cc, pairs, s, 1, 0, 0);
    assert Without(s[0 := 0xAC00], 2) == [0xAC00, 0x300];
    StepJoin(cc, pairs, s, 2, 0, 230);
    FromEnd(cc, pairs, [0xAC00, 0x300], 0, cc(0xAC00));
  }

  lemma {:induction false} MarkMoved(cc: Classes, full: Full)
    requires cc(0x300) == 230 && cc(0x1100) == 0 && cc(0x1161) == 0 && full(0x300) == [0x300]
    ensures !Kept(cc, [0x1100, 0x300, 0x1161], CanonAll(full, [0xAC00, 0x300]))
  {
    var s: seq<Wc>, t: seq<Wc>, u: seq<Wc> := [0x1100, 0x300, 0x1161], [0xAC00, 0x300], [0x1100, 0x1161, 0x300];
    assert t[1..] == [0x300] && t[1..][1..] == [];
    assert Jamo(0xAC00) == [0x1100, 0x1161];
    assert CanonAll(full, t) == u;
    assert Proj(cc, s, 230)[1] == 0x300 by { assert s[1..] == [0x300, 0x1161]; }
    assert Proj(cc, u, 230)[1] == 0x1161 by { assert u[1..] == [0x1161, 0x300]; }
  }
}
