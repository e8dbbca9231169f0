/** Composition in place, and normalization as a whole. */
module NfkcCompose {
  import opened Basics
  import opened Utf8
  import opened NfkcOrder
  import opened NfkcDecompose

  /** Composition by table: the character a pair composes to, if any. */
  type Pairs = (Wc, Wc) -> Option<Wc>

  // ---- Pairs -------------------------------------------------------------------------------------------

  /** combine_hangul. The range of trailing consonants is as wide as the source has it. */
  function CombineHangul(a: Wc, b: Wc): Option<Wc> {
    var l: int, s: int, v: int, t: int := a - LBASE, a - SBASE, b - VBASE, b - TBASE;
    if 0 <= l < LCOUNT && 0 <= v < VCOUNT then Some(SBASE + (l * VCOUNT + v) * TCOUNT)
    else if 0 <= s < SCOUNT && s % TCOUNT == 0 && 0 <= t <= TCOUNT then Some(a + t)
    else None
  }

  /** combine. */
  function Combine(pairs: Pairs, a: Wc, b: Wc): Option<Wc> {
    if CombineHangul(a, b).Some? then CombineHangul(a, b) else pairs(a, b)
  }

  // ---- The loop -------------------------------------------------------------------------------------------

  function Without(s: seq<Wc>, i: nat): seq<Wc>
    requires i < |s|
  {
    s[..i] + s[i + 1..]
  }

  /** The result of composing s from position i on, when `last` is the position of the last starter and
      lastCc what the loop remembers as the class of the character before. */
  function ComposeFrom(cc: Classes, pairs: Pairs, s: seq<Wc>, i: nat, last: nat, lastCc: nat): (r: seq<Wc>)
    requires i == last == 0 || last < i <= |s|
    decreases |s| - i
  {
    if i >= |s| then s
    else if i > 0 && (lastCc == 0 || lastCc != cc(s[i])) && Combine(pairs, s[last], s[i]).Some? then
      var s' := Without(s[last := Combine(pairs, s[last], s[i]).value], i);
      ComposeFrom(cc, pairs, s', i, last, if i - 1 == last then 0 else cc(s'[i - 2]))
    else
      ComposeFrom(cc, pairs, s, i + 1, if cc(s[i]) == 0 then i else last, cc(s[i]))
  }

  function Compose(cc: Classes, pairs: Pairs, s: seq<Wc>): seq<Wc> {
    ComposeFrom(cc, pairs, s, 0, 0, 0)
  }

  /** The buffer while the character at i is being removed: the part before j has moved down. */
  function Moved(w: seq<Wc>, i: nat, j: nat): (v: seq<Wc>)
    requires i < j <= |w|
    ensures |v| == |w|
  {
    w[..i] + w[i + 1..j] + w[j - 1..]
  }

  lemma {:induction false} MovedEnds(w: seq<Wc>, i: nat)
    requires i < |w|
    ensures Moved(w, i, i + 1) == w && Moved(w, i, |w|)[..|w| - 1] == Without(w, i)
  {
  }

  lemma {:induction false} MovedOne(w: seq<Wc>, i: nat, j: nat)
    requires i < j < |w|
    ensures Moved(w, i, j)[j - 1 := Moved(w, i, j)[j]] == Moved(w, i, j + 1)
  {
  }

  /** Removes the character at i by moving the rest of buf[..n] down. */
  method Remove(buf: array<Wc>, i: nat, n: nat)
    requires i < n <= buf.Length
    modifies buf
    ensures buf[..n - 1] == Without(old(buf[..n]), i)
  {
    hide Without, Moved;
    ghost var w := buf[..n];
    var j := i + 1;
    MovedEnds(w, i);
    while j < n
      invariant i < j <= n && buf[..n] == Moved(w, i, j)
    {
      MovedOne(w, i, j);
      ghost var was := buf[..n];
      buf[j - 1] := buf[j];
      assert buf[..n] == was[j - 1 := was[j]];
      j := j + 1;
    }
    assert buf[..n - 1] == buf[..n][..n - 1];
  }

  /** The composing loop of _g_utf8_normalize_wc. */
  method ComposePass(buf: array<Wc>, size: nat, cc: Classes, pairs: Pairs) returns (n: nat)
    requires size <= buf.Length
    modifies buf
    ensures n <= size && buf[..n] == Compose(cc, pairs, old(buf[..size]))
  {
    hide CombineHangul, Without;
    n := size;
    var i: nat, last: nat, lastCc: nat := 0, 0, 0;
    while i < n
      invariant n <= size && (i == last == 0 || last < i <= n)
      invariant ComposeFrom(cc, pairs, buf[..n], i, last, lastCc) == Compose(cc, pairs, old(buf[..size]))
      decreases n - i
    {
      var class' := cc(buf[i]);
      ghost var s := buf[..n];
      if i > 0 && (lastCc == 0 || lastCc != class') {
        var c := Combine(pairs, buf[last], buf[i]);
        if c.Some? {
          buf[last] := c.value;
          assert buf[..n] == s[last := c.value];
          Remove(buf, i, n);
          n := n - 1;
          WithoutSize(s[last := c.value], i);
          if i - 1 == last { lastCc := 0; } else { lastCc := cc(buf[..n][i - 2]); }
          continue;
        }
      }
      if class' == 0 { last := i; }
      lastCc := class';
      i := i + 1;
    }
  }

  lemma {:induction false} WithoutSize(s: seq<Wc>, i: nat)
    requires i < |s|
    ensures |Without(s, i)| == |s| - 1
    ensures forall k :: 0 <= k < i ==> Without(s, i)[k] == s[k]
  {
  }

  // ---- Hangul syllables are fixed points ----------------------------------------------------------------

  predicate IsJamo(c: Wc) {
    || LBASE <= c < LBASE + LCOUNT
    || VBASE <= c < VBASE + VCOUNT
    || TBASE < c < TBASE + TCOUNT
  }

  /** What the tables say about Hangul: jamo are starters, and no row composes a syllable with a
      leading consonant. */
  ghost predicate HangulTables(cc: Classes, pairs: Pairs) {
    && (forall c: Wc :: IsJamo(c) ==> cc(c) == 0)
    && (forall a: Wc, b: Wc :: IsSyllable(a) && LBASE <= b < LBASE + LCOUNT ==> pairs(a, b) == None)
  }

  /** The jamo of a syllable compose to the syllable again. */
  lemma {:induction false} JamoCompose(s: Wc)
    requires IsSyllable(s)
    ensures var j := Jamo(s);
      && LBASE <= j[0] < LBASE + LCOUNT && VBASE <= j[1] < VBASE + VCOUNT && CombineHangul(j[0], j[1]).Some?
      && var lv := CombineHangul(j[0], j[1]).value;
      && IsSyllable(lv)
      && if |j| == 2 then lv == s else TBASE < j[2] < TBASE + TCOUNT && CombineHangul(lv, j[2]) == Some(s)
  {
    var i := s - SBASE;
    var l, r := i / NCOUNT, i % NCOUNT;
    var v, t := r / TCOUNT, r % TCOUNT;
    assert i == NCOUNT * l + TCOUNT * v + t;
    assert l < LCOUNT;
    SplitIndex(l, v, t);
    OpenJamo(l, v);
    SplitIndex(l, v, 0);
  }

  lemma {:induction false} OpenJamo(l: nat, v: nat)
    requires l < LCOUNT && v < VCOUNT
    ensures CombineHangul(LBASE + l, VBASE + v) == Some(SBASE + (NCOUNT * l + TCOUNT * v))
  {
  }

  /** The index of a syllable determines its parts. */
  lemma {:induction false} SplitIndex(l: nat, v: nat, t: nat)
    requires l < LCOUNT && v < VCOUNT && t < TCOUNT
    ensures var i := NCOUNT * l + TCOUNT * v + t;
      i < SCOUNT && i / NCOUNT == l && i % NCOUNT == TCOUNT * v + t && i % NCOUNT / TCOUNT == v && i % TCOUNT == t
  {
    var i := NCOUNT * l + TCOUNT * v + t;
    assert i == TCOUNT * (VCOUNT * l + v) + t;
  }

  lemma {:induction false} JamoSize(s: Wc)
    requires IsSyllable(s)
    ensures |Jamo(s)| >= 2
  {
  }

  /** A syllable does not compose with the leading consonant after it. */
  lemma {:induction false} SyllableThenLeading(cc: Classes, pairs: Pairs, a: Wc, b: Wc)
    requires HangulTables(cc, pairs) && IsSyllable(a) && LBASE <= b < LBASE + LCOUNT
    ensures Combine(pairs, a, b) == None
  {
  }

  /** Composing, when some syllables are done and the jamo of others follow. */
  lemma {:induction false} HangulFrom(cc: Classes, pairs: Pairs, done: seq<Wc>, rest: seq<Wc>, jamo: seq<Wc>)
    requires HangulTables(cc, pairs) && (forall c <- done :: IsSyllable(c)) && (forall c <- rest :: IsSyllable(c))
    requires jamo == JamoAll(rest)
    ensures ComposeFrom(cc, pairs, done + jamo, |done|, if done == [] then 0 else |done| - 1, 0) == done + rest
    decreases |rest|
  {
    hide Jamo, Combine, CombineHangul, ComposeFrom, HangulTables, IsJamo, IsSyllable;
    if rest == [] {
      FromEnd(cc, pairs, done + jamo, if done == [] then 0 else |done| - 1, 0);
    } else {
      var c := rest[0];
      HangulOne(cc, pairs, done, c, JamoAll(rest[1..]));
      HangulFrom(cc, pairs, done + [c], rest[1..], JamoAll(rest[1..]));
      assert done + [c] + rest[1..] == done + rest;
    }
  }

  function JamoAll(cs: seq<Wc>): seq<Wc> {
    if cs == [] then [] else Jamo(cs[0]) + JamoAll(cs[1..])
  }

  lemma {:induction false} FromEnd(cc: Classes, pairs: Pairs, s: seq<Wc>, last: nat, lastCc: nat)
    requires (s == [] && last == 0) || last < |s|
    ensures ComposeFrom(cc, pairs, s, |s|, last, lastCc) == s
  {
  }

  /** A character that composes with the starter just before it. */
  lemma {:induction false} JoinNext(cc: Classes, pairs: Pairs, done: seq<Wc>, a: Wc, b: Wc, more: seq<Wc>)
    requires CombineHangul(a, b).Some?
    ensures var n := |done|;
      ComposeFrom(cc, pairs, done + [a, b] + more, n + 1, n, 0)
      == ComposeFrom(cc, pairs, done + [CombineHangul(a, b).value] + more, n + 1, n, 0)
  {
    hide CombineHangul, ComposeFrom;
    var n, s, c := |done|, done + [a, b] + more, CombineHangul(a, b).value;
    assert s[n] == a && s[n + 1] == b;
    assert Without(s[n := c], n + 1) == done + [c] + more;
    StepJoin(cc, pairs, s, n + 1, n, 0);
  }

  /** One syllable's jamo are composed to it. */
  lemma {:induction false} HangulOne(cc: Classes, pairs: Pairs, done: seq<Wc>, c: Wc, more: seq<Wc>)
    requires HangulTables(cc, pairs) && (forall d <- done :: IsSyllable(d)) && IsSyllable(c)
    ensures var n := |done|;
      ComposeFrom(cc, pairs, done + (Jamo(c) + more), n, if done == [] then 0 else n - 1, 0)
      == ComposeFrom(cc, pairs, done + [c] + more, n + 1, n, 0)
  {
    hide Jamo, CombineHangul, ComposeFrom, Without;
    var n, j := |done|, Jamo(c);
    assert |j| >= 2 by { JamoSize(c); }
    JamoCompose(c);
    var lv, rest := CombineHangul(j[0], j[1]).value, j[2..] + more;
    var s0 := done + (j + more);
    if done != [] { SyllableThenLeading(cc, pairs, done[n - 1], j[0]); }
    assert cc(j[0]) == 0;
    StepOn(cc, pairs, s0, n, if done == [] then 0 else n - 1, 0);
    assert s0 == done + [j[0], j[1]] + rest;
    JoinNext(cc, pairs, done, j[0], j[1], rest);
    if |j| == 3 {
      assert done + [lv] + rest == done + [lv, j[2]] + more;
      JoinNext(cc, pairs, done, lv, j[2], more);
    } else {
      assert done + [lv] + rest == done + [c] + more;
    }
  }

  lemma {:induction false} StepOn(cc: Classes, pairs: Pairs, s: seq<Wc>, i: nat, last: nat, lastCc: nat)
    requires i < |s| && (i == last == 0 || last < i) && (i == 0 || Combine(pairs, s[last], s[i]) == None)
    ensures ComposeFrom(cc, pairs, s, i, last, lastCc)
      == ComposeFrom(cc, pairs, s, i + 1, if cc(s[i]) == 0 then i else last, cc(s[i]))
  {
  }

  lemma {:induction false} StepJoin(cc: Classes, pairs: Pairs, s: seq<Wc>, i: nat, last: nat, lastCc: nat)
    requires last < i < |s| && (lastCc == 0 || lastCc != cc(s[i])) && Combine(pairs, s[last], s[i]).Some?
    ensures var s' := Without(s[last := Combine(pairs, s[last], s[i]).value], i);
      ComposeFrom(cc, pairs, s, i, last, lastCc)
      == ComposeFrom(cc, pairs, s', i, last, if i - 1 == last then 0 else cc(s'[i - 2]))
  {
  }

  lemma {:induction false} JamoAllNext(cs: seq<Wc>, c: Wc)
    ensures JamoAll(cs + [c]) == JamoAll(cs) + Jamo(c)
  {
    hide Jamo;
    if cs == [] {
      assert [c][1..] == [] && [] + [c] == [c];
    } else {
      JamoAllNext(cs[1..], c);
      assert (cs + [c])[1..] == cs[1..] + [c];
    }
  }

  lemma {:induction false} SyllablesDecompose(table: seq<Entry>, compat: bool, cs: seq<Wc>)
    requires forall c <- cs :: IsSyllable(c)
    ensures DecomposeAll(table, compat, cs) == JamoAll(cs)
    decreases |cs|
  {
    hide Jamo;
    if cs != [] {
      var n := |cs| - 1;
      assert IsSyllable(cs[n]);
      SyllablesDecompose(table, compat, cs[..n]);
      JamoAllNext(cs[..n], cs[n]);
      assert cs == cs[..n] + [cs[n]];
    }
  }

  lemma {:induction false} JamoOnly(cs: seq<Wc>)
    requires forall c <- cs :: IsSyllable(c)
    ensures forall x <- JamoAll(cs) :: IsJamo(x)
  {
    hide Jamo, CombineHangul;
    if cs != [] {
      JamoCompose(cs[0]);
      JamoOnly(cs[1..]);
    }
  }

  /** Decomposed, ordered, and if wanted composed. */
  function Normal(table: seq<Entry>, compat: bool, compose: bool, cc: Classes, pairs: Pairs, cs: seq<Wc>): seq<Wc> {
    var d := Order(cc, DecomposeAll(table, compat, cs));
    if compose then Compose(cc, pairs, d) else d
  }

  /** Any string of precomposed syllables is its own normal form. */
  lemma {:induction false} HangulFixed(table: seq<Entry>, compat: bool, cc: Classes, pairs: Pairs, cs: seq<Wc>)
    requires HangulTables(cc, pairs) && forall c <- cs :: IsSyllable(c)
    ensures Normal(table, compat, true, cc, pairs, cs) == cs
  {
    hide Jamo, ComposeFrom, JamoAll, DecomposeAll, Order, Proj;
    SyllablesDecompose(table, compat, cs);
    JamoOnly(cs);
    var d := JamoAll(cs);
    assert Ordered(cc, d) by {
      forall i | 0 < i < |d| ensures cc(d[i]) == 0 { assert d[i] in d; }
    }
    KeptRefl(cc, d);
    OrderUnique(cc, d, d);
    HangulFrom(cc, pairs, [], cs, d);
    assert [] + d == d && [] + cs == cs;
  }

  // ---- The whole of normalization ------------------------------------------------------------------------

  /** _g_utf8_normalize_wc: the buffer is exactly as long as the decomposition and a terminator. */
  method NormalizeWc(str: seq<Byte>, ghost cs: seq<Wc>, table: seq<Entry>, compat: bool, compose: bool, cc: Classes,
                     pairs: Pairs) returns (buf: array<Wc>, n: nat)
    requires Text(cs) && str == EncodeAll(cs) && TableOk(table)
    ensures fresh(buf) && n < buf.Length && buf[..n] == Normal(table, compat, compose, cc, pairs, cs) && buf[n] == 0
  {
    hide DecomposeAll, Order, EncodeAll, TableOk, Compose;
    n := Count(str, cs, table, compat);
    buf := new Wc[n + 1](_ => 0);
    n := Fill(str, cs, table, compat, cc, buf);
    buf[n] := 0;
    assert buf[..n] == Order(cc, DecomposeAll(table, compat, cs));
    if compose && n > 0 {
      n := ComposePass(buf, n, cc, pairs);
    } else if compose {
      NothingComposed(cc, pairs);
    }
    buf[n] := 0;
  }

  lemma {:induction false} NothingComposed(cc: Classes, pairs: Pairs)
    ensures Compose(cc, pairs, []) == []
  {
  }

  /** g_utf8_normalize: the encoding of the normal form. */
  method NormalizeUtf8(str: seq<Byte>, ghost cs: seq<Wc>, table: seq<Entry>, compat: bool, compose: bool, cc: Classes,
                       pairs: Pairs) returns (result: Encoded)
    requires Text(cs) && str == EncodeAll(cs) && TableOk(table)
    ensures var normal := UpToZero(Normal(table, compat, compose, cc, pairs, cs));
      match result
      case Bytes(b) => Text(normal) && b[..] == EncodeAll(normal) + [0]
      case OutOfRange(i) => i < |normal| && !InRange(normal[i])
    ensures compat && compose && HangulTables(cc, pairs) && (forall c <- cs :: IsSyllable(c)) ==>
      result.Bytes? && result.bytes[..] == str + [0]
  {
    hide EncodeAll, TableOk, Normal, HangulTables, IsSyllable, UpToZero;
    var buf, n := NormalizeWc(str, cs, table, compat, compose, cc, pairs);
    assert buf[..n + 1] == buf[..n] + [0];
    Terminated(buf[..n]);
    result := ToUtf8(buf[..n + 1]);
    if compat && compose && HangulTables(cc, pairs) && (forall c <- cs :: IsSyllable(c)) {
      HangulFixed(table, compat, cc, pairs, cs);
      TextUpToZero(cs);
    }
  }

  lemma {:induction false} Terminated(cs: seq<Wc>)
    ensures UpToZero(cs + [0]) == UpToZero(cs)
  {
    var i := |UpToZero(cs)|;
    forall k | 0 <= k < i ensures (cs + [0])[k] != 0 { assert UpToZero(cs)[k] in UpToZero(cs); }
    ZeroAt(cs + [0], i);
    assert (cs + [0])[..i] == cs[..i];
  }

  lemma {:induction false} TextUpToZero(cs: seq<Wc>)
    requires Text(cs)
    ensures UpToZero(cs) == cs
  {
    forall k | 0 <= k < |cs| ensures cs[k] != 0 { assert cs[k] in cs; }
    ZeroAt(cs, |cs|);
    assert cs[..|cs|] == cs;
  }
}
