/** Decomposition of a string: a counting pass, then a filling pass that orders the marks of each
    segment as soon as the next starter shows where the segment ends. */
module NfkcDecompose {
  import opened Basics
  import opened Utf8
  import opened NfkcOrder

  /** A row of the decomposition table. Expansions are given as the code points they encode. */
  datatype Entry = Entry(ch: Wc, canon: Option<seq<Wc>>, compat: Option<seq<Wc>>)

  predicate Expands(e: Option<seq<Wc>>) {
    e.Some? ==> e.value != [] && Text(e.value)
  }

  /** The table: one row per character, in ascending order, expansions non-empty. */
  predicate TableOk(table: seq<Entry>) {
    && table != []
    && (forall i, j :: 0 <= i < j < |table| ==> table[i].ch < table[j].ch)
    && (forall e <- table :: Expands(e.canon) && Expands(e.compat) && (e.canon.Some? || e.compat.Some?))
  }

  /** Compatibility mappings where they are wanted and there are any, canonical ones otherwise. */
  function Chosen(e: Entry, compat: bool): Option<seq<Wc>> {
    if compat && e.compat.Some? then e.compat else e.canon
  }

  /** The expansion of a character, found row by row. */
  function Expansion(table: seq<Entry>, compat: bool, ch: Wc): Option<seq<Wc>> {
    if table == [] then None
    else if table[0].ch == ch then Chosen(table[0], compat)
    else Expansion(table[1..], compat, ch)
  }

  lemma {:induction false} ExpansionAt(table: seq<Entry>, compat: bool, ch: Wc, k: nat)
    requires TableOk(table) && k < |table| && table[k].ch == ch
    ensures Expansion(table, compat, ch) == Chosen(table[k], compat)
    decreases k
  {
    if k > 0 {
      assert TableOk(table[1..]);
      ExpansionAt(table[1..], compat, ch, k - 1);
    }
  }

  lemma {:induction false} ExpansionNone(table: seq<Entry>, compat: bool, ch: Wc)
    requires forall e <- table :: e.ch != ch
    ensures Expansion(table, compat, ch) == None
  {
    if table != [] { ExpansionNone(table[1..], compat, ch); }
  }

  lemma {:induction false} ExpansionOk(table: seq<Entry>, compat: bool, ch: Wc)
    requires forall e <- table :: Expands(e.canon) && Expands(e.compat)
    ensures Expands(Expansion(table, compat, ch))
  {
    if table != [] { ExpansionOk(table[1..], compat, ch); }
  }

  /** find_decomposition: binary search in the table. */
  method FindDecomposition(table: seq<Entry>, ch: Wc, compat: bool) returns (d: Option<seq<Wc>>)
    requires TableOk(table)
    ensures d == Expansion(table, compat, ch)
  {
    var start, end := 0, |table|;
    if table[start].ch <= ch <= table[end - 1].ch {
      while true
        invariant 0 <= start < end <= |table| && table[start].ch <= ch && (end < |table| ==> ch < table[end].ch)
        decreases end - start
      {
        var half := (start + end) / 2;
        if ch == table[half].ch {
          ExpansionAt(table, compat, ch, half);
          return Chosen(table[half], compat);
        }
        if half == start { break; }
        if ch > table[half].ch { start := half; } else { end := half; }
      }
    }
    forall e <- table ensures e.ch != ch {
      var k :| 0 <= k < |table| && table[k] == e;
    }
    ExpansionNone(table, compat, ch);
    d := None;
  }

  // ---- Hangul syllables: section 3.12 of the Unicode Standard ------------------------------------------

  const SBASE: Wc := 0xAC00
  const LBASE: Wc := 0x1100
  const VBASE: Wc := 0x1161
  const TBASE: Wc := 0x11A7
  const LCOUNT: nat := 19
  const VCOUNT: nat := 21
  const TCOUNT: nat := 28
  const NCOUNT: nat := VCOUNT * TCOUNT
  const SCOUNT: nat := LCOUNT * NCOUNT

  predicate IsSyllable(c: Wc) {
    SBASE <= c < SBASE + SCOUNT
  }

  /** The conjoining jamo of a syllable; any other character stands for itself. */
  function Jamo(s: Wc): (r: seq<Wc>)
    ensures 1 <= |r| <= 3
  {
    if !IsSyllable(s) then [s]
    else
      var i := s - SBASE;
      [LBASE + i / NCOUNT, VBASE + i % NCOUNT / TCOUNT] + (if i % TCOUNT == 0 then [] else [TBASE + i % TCOUNT])
  }

  /** decompose_hangul, which only counts when it is given no buffer. */
  method DecomposeHangul(s: Wc, r: array?<Wc>, at: nat) returns (len: nat)
    requires r != null ==> at + |Jamo(s)| <= r.Length
    modifies if r == null then {} else {r}
    ensures len == |Jamo(s)|
    ensures r != null ==> r[..] == old(r[..])[..at] + Jamo(s) + old(r[..])[at + len..]
  {
    ghost var w := if r == null then [] else r[..];
    var i: int := s - SBASE;
    if i < 0 || i >= SCOUNT {
      if r != null { r[at] := s; }
      len := 1;
    } else {
      var l, v, t := LBASE + i / NCOUNT, VBASE + i % NCOUNT / TCOUNT, TBASE + i % TCOUNT;
      if r != null { r[at], r[at + 1] := l, v; }
      if t != TBASE {
        if r != null { r[at + 2] := t; }
        len := 3;
      } else {
        len := 2;
      }
    }
  }

  // ---- What decomposition is -----------------------------------------------------------------------------

  function Decompose(table: seq<Entry>, compat: bool, c: Wc): seq<Wc> {
    if 0xac00 <= c <= 0xd7af then Jamo(c)
    else
      match Expansion(table, compat, c)
      case Some(e) => e
      case None => [c]
  }

  function DecomposeAll(table: seq<Entry>, compat: bool, cs: seq<Wc>): seq<Wc> {
    if cs == [] then [] else DecomposeAll(table, compat, cs[..|cs| - 1]) + Decompose(table, compat, cs[|cs| - 1])
  }

  lemma {:induction false} DecomposeNext(table: seq<Entry>, compat: bool, cs: seq<Wc>, k: nat)
    requires k < |cs|
    ensures DecomposeAll(table, compat, cs[..k + 1])
      == DecomposeAll(table, compat, cs[..k]) + Decompose(table, compat, cs[k])
  {
    hide Decompose;
    assert cs[..k + 1][..k] == cs[..k];
  }

  lemma {:induction false} DecomposeJoin(table: seq<Entry>, compat: bool, cs: seq<Wc>, ds: seq<Wc>)
    ensures DecomposeAll(table, compat, cs + ds) == DecomposeAll(table, compat, cs) + DecomposeAll(table, compat, ds)
    decreases |ds|
  {
    hide Decompose;
    if ds == [] {
      assert cs + ds == cs;
    } else {
      var n := |ds| - 1;
      DecomposeJoin(table, compat, cs, ds[..n]);
      assert (cs + ds)[..|cs + ds| - 1] == cs + ds[..n];
    }
  }

  /** No prefix of the text decomposes to more than the whole. */
  lemma {:induction false} DecomposeGrows(table: seq<Entry>, compat: bool, cs: seq<Wc>, k: nat)
    requires k <= |cs|
    ensures |DecomposeAll(table, compat, cs[..k])| <= |DecomposeAll(table, compat, cs)|
  {
    hide Decompose, DecomposeAll;
    DecomposeJoin(table, compat, cs[..k], cs[k..]);
    assert cs[..k] + cs[k..] == cs;
  }

  lemma {:induction false} DecomposeSome(table: seq<Entry>, compat: bool, c: Wc)
    requires TableOk(table) && InRange(c) && c != 0
    ensures Decompose(table, compat, c) != [] && Text(Decompose(table, compat, c))
  {
    ExpansionOk(table, compat, c);
  }

  // ---- The passes ------------------------------------------------------------------------------------------

  /** How many code points one character decomposes to. */
  method CountOne(table: seq<Entry>, compat: bool, wc: Wc) returns (n: nat)
    requires TableOk(table)
    ensures n == |Decompose(table, compat, wc)|
  {
    if 0xac00 <= wc <= 0xd7af {
      n := DecomposeHangul(wc, null, 0);
    } else {
      ExpansionOk(table, compat, wc);
      var d := FindDecomposition(table, wc, compat);
      match d
      case Some(e) => n := CountChars(EncodeAll(e), e);
      case None => n := 1;
    }
  }

  /** The counting pass. */
  method Count(str: seq<Byte>, ghost cs: seq<Wc>, table: seq<Entry>, compat: bool) returns (n: nat)
    requires Text(cs) && str == EncodeAll(cs) && TableOk(table)
    ensures n == |DecomposeAll(table, compat, cs)|
  {
    hide EncodeAll, Offset, Decompose, TableOk, Fold, Continues, Skip, Room;
    var p := 0;
    ghost var k := 0;
    n := 0;
    Size(cs);
    OffsetStart(cs);
    assert cs[..0] == [] && cs[..|cs|] == cs;
    while Fetch(str, p) != 0
      invariant k <= |cs| && p == Offset(cs, k) <= |str| && n == |DecomposeAll(table, compat, cs[..k])|
      invariant k == |cs| <==> p == |str|
      decreases |cs| - k
    {
      CharOfText(cs, k);
      var wc := GetChar(str, p);
      var m := CountOne(table, compat, wc);
      DecomposeNext(table, compat, cs, k);
      n, p, k := n + m, p + Skip(str[p]), k + 1;
      OffsetsGrow(cs, k);
    }
    if k < |cs| { CharOfText(cs, k); }
  }

  /** Writes what one character decomposes to at position n of the buffer. */
  method FillOne(table: seq<Entry>, compat: bool, wc: Wc, buf: array<Wc>, n: nat) returns (m: nat)
    requires TableOk(table) && n + |Decompose(table, compat, wc)| <= buf.Length
    modifies buf
    ensures m == n + |Decompose(table, compat, wc)|
    ensures buf[..] == old(buf[..])[..n] + Decompose(table, compat, wc) + old(buf[..])[m..]
  {
    hide TableOk, Jamo;
    if 0xac00 <= wc <= 0xd7af {
      m := DecomposeHangul(wc, buf, n);
      m := n + m;
    } else {
      DecompositionText(table, compat, wc);
      var d := FindDecomposition(table, wc, compat);
      match d
      case Some(e) => m := CopyChars(EncodeAll(e), e, buf, n);
      case None =>
        buf[n] := wc;
        m := n + 1;
    }
  }

  lemma {:induction false} DecompositionText(table: seq<Entry>, compat: bool, wc: Wc)
    requires TableOk(table)
    ensures Expands(Expansion(table, compat, wc))
  {
    ExpansionOk(table, compat, wc);
  }

  /** Writes the characters of an encoded string at position n of the buffer. */
  method CopyChars(str: seq<Byte>, ghost cs: seq<Wc>, buf: array<Wc>, n: nat) returns (m: nat)
    requires Text(cs) && str == EncodeAll(cs) && n + |cs| <= buf.Length
    modifies buf
    ensures m == n + |cs|
    ensures buf[..] == old(buf[..])[..n] + cs + old(buf[..])[m..]
  {
    hide EncodeAll, Offset, Fold, Continues, Skip, Room;
    ghost var w := buf[..];
    var p := 0;
    ghost var k := 0;
    m := n;
    Size(cs);
    OffsetStart(cs);
    assert buf[..] == w[..n] + cs[..0] + w[n..];
    while Fetch(str, p) != 0
      invariant k <= |cs| && p == Offset(cs, k) <= |str| && m == n + k
      invariant k == |cs| <==> p == |str|
      invariant buf[..] == w[..n] + cs[..k] + w[m..]
      decreases |cs| - k
    {
      CharOfText(cs, k);
      buf[m] := GetChar(str, p);
      OverwriteNext(w, n, cs, k);
      m, p, k := m + 1, p + Skip(str[p]), k + 1;
      OffsetsGrow(cs, k);
    }
    if k < |cs| { CharOfText(cs, k); }
    assert cs[..k] == cs;
  }

  lemma {:induction false} OverwriteNext(w: seq<Wc>, n: nat, cs: seq<Wc>, k: nat)
    requires k < |cs| && n + |cs| <= |w|
    ensures (w[..n] + cs[..k] + w[n + k..])[n + k := cs[k]] == w[..n] + cs[..k + 1] + w[n + k + 1..]
  {
  }

  // ---- Ordering segment by segment ----------------------------------------------------------------------

  lemma {:induction false} OrderedJoin(cc: Classes, s: seq<Wc>, t: seq<Wc>)
    requires Ordered(cc, s) && Ordered(cc, t) && (s == [] || t == [] || cc(t[0]) == 0)
    ensures Ordered(cc, s + t)
  {
  }

  lemma {:induction false} OrderedPart(cc: Classes, s: seq<Wc>, k: nat)
    requires Ordered(cc, s) && k <= |s|
    ensures Ordered(cc, s[..k])
  {
  }

  lemma {:induction false} KeptRefl(cc: Classes, s: seq<Wc>)
    ensures Kept(cc, s, s)
  {
  }

  lemma {:induction false} KeptThen(cc: Classes, s: seq<Wc>, t: seq<Wc>, u: seq<Wc>)
    requires Kept(cc, s, t) && Kept(cc, t, u)
    ensures Kept(cc, s, u)
  {
    hide Proj;
    forall c: nat ensures Proj(cc, s, c) == Proj(cc, u, c) { assert Proj(cc, s, c) == Proj(cc, t, c); }
  }

  /** What the filling pass keeps of the characters b written so far, which came from d: they differ
      by legal changes only, and up to the start of the current segment they are in order. */
  ghost predicate Filled(cc: Classes, d: seq<Wc>, b: seq<Wc>, last: nat) {
    && Kept(cc, d, b) && |b| == |d| && last <= |b| && Ordered(cc, b[..last])
    && (b != [] ==> last < |b|) && (last > 0 ==> cc(b[last]) == 0)
  }

  /** Writing one more decomposition. */
  lemma {:induction false} FilledMore(cc: Classes, d: seq<Wc>, b: seq<Wc>, last: nat, e: seq<Wc>)
    requires Filled(cc, d, b, last) && e != []
    ensures Filled(cc, d + e, b + e, last)
  {
    hide Proj;
    KeptRefl(cc, e);
    KeptJoin(cc, d, b, e, e);
    assert (b + e)[..last] == b[..last];
  }

  /** Ordering the current segment. */
  lemma {:induction false} FilledOrdered(cc: Classes, d: seq<Wc>, b: seq<Wc>, last: nat)
    requires Filled(cc, d, b, last)
    ensures var r := b[..last] + Order(cc, b[last..]);
      && Kept(cc, d, r) && Ordered(cc, r) && |r| == |b|
      && forall i :: 0 <= i < |b| ==> (cc(b[i]) == 0 ==> r[i] == b[i])
  {
    hide Proj, Order;
    var low, high := b[..last], b[last..];
    OrderSorts(cc, high);
    OrderStays(cc, high);
    KeptRefl(cc, low);
    KeptJoin(cc, low, low, high, Order(cc, high));
    assert b == low + high;
    KeptThen(cc, d, b, low + Order(cc, high));
    OrderedJoin(cc, low, Order(cc, high));
  }

  /** Once ordered, the next segment may start at any starter. */
  lemma {:induction false} NewSegment(cc: Classes, d: seq<Wc>, b: seq<Wc>, last: nat, next: nat)
    requires Filled(cc, d, b, last) && next < |b| && cc(b[next]) == 0
    ensures Filled(cc, d, b[..last] + Order(cc, b[last..]), next)
  {
    hide Proj, Order;
    FilledOrdered(cc, d, b, last);
    OrderedPart(cc, b[..last] + Order(cc, b[last..]), next);
  }

  method OrderSegment(buf: array<Wc>, last: nat, n: nat, cc: Classes, ghost b: seq<Wc>)
    requires last < n <= buf.Length && buf[..n] == b
    modifies buf
    ensures buf[..n] == b[..last] + Order(cc, b[last..])
  {
    hide Order;
    ghost var w := buf[..];
    CanonicalOrdering(buf, last, n, cc);
    Segment(w, buf[..], b, last, n, Order(cc, w[last..n]));
  }

  /** The filling pass: the whole decomposition, in canonical order. */
  method Fill(str: seq<Byte>, ghost cs: seq<Wc>, table: seq<Entry>, compat: bool, cc: Classes, buf: array<Wc>)
    returns (n: nat)
    requires Text(cs) && str == EncodeAll(cs) && TableOk(table)
    requires buf.Length == |DecomposeAll(table, compat, cs)| + 1
    modifies buf
    ensures n == buf.Length - 1 && buf[..n] == Order(cc, DecomposeAll(table, compat, cs))
  {
    hide EncodeAll, Offset, Decompose, TableOk, Fold, Continues, Skip, Room, Order, Filled, DecomposeAll, Ordered;
    var p: nat, last: nat := 0, 0;
    ghost var k := 0;
    n := 0;
    Size(cs);
    OffsetStart(cs);
    NothingFilled(table, compat, cc, cs);
    assert cs[..|cs|] == cs;
    while Fetch(str, p) != 0
      invariant k <= |cs| && p == Offset(cs, k) <= |str| && n == |DecomposeAll(table, compat, cs[..k])| < buf.Length
      invariant k == |cs| <==> p == |str|
      invariant Filled(cc, DecomposeAll(table, compat, cs[..k]), buf[..n], last)
      decreases |cs| - k
    {
      CharOfText(cs, k);
      var wc := GetChar(str, p);
      var old' := n;
      ghost var b, e := buf[..n], Decompose(table, compat, wc);
      assert wc in cs;
      DecomposeNext(table, compat, cs, k);
      DecomposeGrows(table, compat, cs, k + 1);
      DecomposeSome(table, compat, wc);
      n := FillOne(table, compat, wc, buf, n);
      FilledMore(cc, DecomposeAll(table, compat, cs[..k]), b, last, e);
      Written(buf[..], b, e, n);
      if n > 0 && cc(buf[old']) == 0 {
        SegmentSize(cc, DecomposeAll(table, compat, cs[..k + 1]), b + e, last);
        NewSegment(cc, DecomposeAll(table, compat, cs[..k + 1]), b + e, last, old');
        OrderSegment(buf, last, n, cc, b + e);
        last := old';
      }
      p, k := p + Skip(str[p]), k + 1;
      OffsetsGrow(cs, k);
    }
    if k < |cs| { CharOfText(cs, k); }
    ghost var d, b := DecomposeAll(table, compat, cs), buf[..n];
    SegmentSize(cc, d, b, last);
    FilledOrdered(cc, d, b, last);
    OrderUnique(cc, d, b[..last] + Order(cc, b[last..]));
    if n > 0 {
      OrderSegment(buf, last, n, cc, b);
    } else {
      NothingFilled(table, compat, cc, cs);
    }
  }

  lemma {:induction false} NothingFilled(table: seq<Entry>, compat: bool, cc: Classes, cs: seq<Wc>)
    ensures DecomposeAll(table, compat, cs[..0]) == [] && Filled(cc, [], [], 0) && cs[..0] == []
  {
  }

  lemma {:induction false} SegmentSize(cc: Classes, d: seq<Wc>, b: seq<Wc>, last: nat)
    requires Filled(cc, d, b, last)
    ensures last <= |b| == |d| && (b != [] ==> last < |b|)
  {
  }

  lemma {:induction false} Written(w: seq<Wc>, b: seq<Wc>, e: seq<Wc>, n: nat)
    requires |b| + |e| == n <= |w| && w[..|b|] == b && w[|b|..n] == e
    ensures w[..n] == b + e
  {
  }

  lemma {:induction false} Segment(w: seq<Wc>, w': seq<Wc>, b: seq<Wc>, last: nat, n: nat, o: seq<Wc>)
    requires last < n <= |w| && w[..n] == b && |o| == n - last && w' == w[..last] + o + w[n..]
    ensures w[last..n] == b[last..] && w'[..n] == b[..last] + o
  {
  }

  // ---- Properties of decomposition -------------------------------------------------------------------

  /** Texts whose decompositions differ by legal changes only fill the buffer alike. */
  lemma {:induction false} EquivalentTexts(table: seq<Entry>, compat: bool, cc: Classes, cs: seq<Wc>, ds: seq<Wc>)
    requires Kept(cc, DecomposeAll(table, compat, cs), DecomposeAll(table, compat, ds))
    ensures Order(cc, DecomposeAll(table, compat, cs)) == Order(cc, DecomposeAll(table, compat, ds))
  {
    SameOrder(cc, DecomposeAll(table, compat, cs), DecomposeAll(table, compat, ds));
  }

  /** Expansions hold nothing that would be decomposed further. */
  ghost predicate FullyExpanded(table: seq<Entry>, compat: bool) {
    forall c: Wc, x :: x in Decompose(table, compat, c) ==> Decompose(table, compat, x) == [x]
  }

  lemma {:induction false} DecomposeFixed(table: seq<Entry>, compat: bool, s: seq<Wc>)
    requires forall x <- s :: Decompose(table, compat, x) == [x]
    ensures DecomposeAll(table, compat, s) == s
    decreases |s|
  {
    hide Decompose;
    if s != [] {
      var n := |s| - 1;
      assert s[n] in s;
      DecomposeFixed(table, compat, s[..n]);
    }
  }

  lemma {:induction false} DecomposedStays(table: seq<Entry>, compat: bool, cs: seq<Wc>)
    requires FullyExpanded(table, compat)
    ensures forall x <- DecomposeAll(table, compat, cs) :: Decompose(table, compat, x) == [x]
    decreases |cs|
  {
    hide Decompose;
    if cs != [] { DecomposedStays(table, compat, cs[..|cs| - 1]); }
  }

  /** Decomposing a second time changes nothing when the expansions are fully expanded. */
  lemma {:induction false} DecomposeAgain(table: seq<Entry>, compat: bool, cc: Classes, cs: seq<Wc>)
    requires FullyExpanded(table, compat)
    ensures var once := Order(cc, DecomposeAll(table, compat, cs));
      Order(cc, DecomposeAll(table, compat, once)) == once
  {
    hide Decompose, Order, Proj, DecomposeAll, FullyExpanded;
    var d := DecomposeAll(table, compat, cs);
    var once := Order(cc, d);
    DecomposedStays(table, compat, cs);
    OrderStays(cc, d);
    forall x <- once ensures Decompose(table, compat, x) == [x] {
      assert x in multiset(once);
      assert x in d;
    }
    DecomposeFixed(table, compat, once);
    OrderAgain(cc, d);
  }
}
