/** Pattern text read character by character: set notation, plain text, and text that ends too soon. */
module RegexTexts {
  import Basics
  import opened RegexCode
  import opened RegexAst
  import opened RegexSyntax
  import opened RegexNotation
  import opened RegexSpelling
  import opened RegexReading
  import opened RegexFaults

  // ---- Sets -----------------------------------------------------------------------------------------------

  /** What is written between brackets: single characters and ranges. */
  datatype Item = One(c: Byte) | Range(lo: Byte, hi: Byte)

  function ItemText(it: Item): Text {
    match it
    case One(c) => [c]
    case Range(lo, hi) => [lo, DASH, hi]
  }

  function ItemsText(items: seq<Item>): Text {
    if items == [] then [] else ItemText(items[0]) + ItemsText(items[1..])
  }

  /** The items, and a dash that stands for itself before the closing bracket. */
  function Inner(items: seq<Item>, dash: bool): Text {
    ItemsText(items) + (if dash then [45, 93] else [93])
  }

  predicate InItems(items: seq<Item>, dash: bool, c: Byte) {
    || (dash && c == 45)
    || exists k :: 0 <= k < |items| && InItem(items[k], c)
  }

  /** A range with its ends the wrong way round holds the first of them. */
  predicate InItem(it: Item, c: Byte) {
    match it
    case One(d) => c == d
    case Range(lo, hi) => c == lo || (lo <= c && c <= hi)
  }

  /** Items that are read as written: a closing bracket stands first, no range ends in one, and no dash
      begins an item after a single character. */
  predicate ItemsOk(items: seq<Item>, first: bool, after: bool) {
    items == [] || match items[0]
      case One(c) => (c == 93 ==> first) && (c == 45 ==> !after) && ItemsOk(items[1..], false, true)
      case Range(lo, hi) =>
        (lo == 93 ==> first) && (lo == 45 ==> !after) && hi != 93 && ItemsOk(items[1..], false, false)
  }

  function ItemSet(items: seq<Item>): set<Byte> {
    if items == [] then {}
    else
      match items[0]
      case One(c) => {c} + ItemSet(items[1..])
      case Range(lo, hi) => {lo} + Between(lo, hi) + ItemSet(items[1..])
  }

  lemma {:induction false} ItemSetHas(items: seq<Item>, c: Byte)
    ensures c in ItemSet(items) <==> exists k :: 0 <= k < |items| && InItem(items[k], c)
  {
    if items != [] {
      ItemSetHas(items[1..], c);
      assert c in ItemSet(items) <==> InItem(items[0], c) || c in ItemSet(items[1..]);
      if k :| 0 <= k < |items| && InItem(items[k], c) {
        if k > 0 { assert InItem(items[1..][k - 1], c); }
      }
      if k :| 0 <= k < |items[1..]| && InItem(items[1..][k], c) { assert InItem(items[k + 1], c); }
    }
  }

  lemma {:induction false} ReadOne(pat: Text, pos: nat, c: Byte, prev: int, first: bool, acc: set<Byte>, rest: Text)
    requires At(pat, pos, [c] + rest) && rest != [] && -1 <= prev
    requires (c == RBRACKET ==> first) && (c == DASH ==> prev == -1)
    ensures At(pat, pos + 1, rest)
    ensures SetFrom(pat, pos, pat[pos - 1], prev, false, first, acc)
      == SetFrom(pat, pos + 1, pat[pos], c, false, false, acc + {c})
  {
    AtSplit(pat, pos, [c], rest);
    AtChar(pat, pos, [c] + rest, 0);
  }

  lemma {:induction false} ReadSpan(pat: Text, pos: nat, lo: Byte, hi: Byte, prev: int, first: bool, acc: set<Byte>,
                                    rest: Text)
    requires At(pat, pos, [lo, DASH, hi] + rest) && rest != [] && -1 <= prev
    requires (lo == RBRACKET ==> first) && (lo == DASH ==> prev == -1) && hi != RBRACKET
    ensures At(pat, pos + 3, rest)
    ensures SetFrom(pat, pos, pat[pos - 1], prev, false, first, acc)
      == SetFrom(pat, pos + 3, pat[pos + 2], -1, false, false, acc + ({lo} + Between(lo, hi)))
  {
    hide Between;
    var t := [lo, DASH, hi] + rest;
    AtSplit(pat, pos, [lo, DASH, hi], rest);
    AtChar(pat, pos, t, 0);
    AtChar(pat, pos, t, 1);
    AtChar(pat, pos, t, 2);
    assert SetFrom(pat, pos, pat[pos - 1], prev, false, first, acc)
      == SetFrom(pat, pos + 1, DASH, lo, false, false, acc + {lo});
    assert SetFrom(pat, pos + 1, DASH, lo, false, false, acc + {lo})
      == SetFrom(pat, pos + 2, hi, lo, true, false, acc + {lo});
    assert acc + {lo} + Between(lo, hi) == acc + ({lo} + Between(lo, hi));
  }

  lemma {:induction false} InnerSize(items: seq<Item>, dash: bool)
    ensures |Inner(items, dash)| > 0
    ensures items != [] ==> Inner(items, dash) == ItemText(items[0]) + Inner(items[1..], dash)
  {
    if items != [] {
      var a, b := ItemText(items[0]), ItemsText(items[1..]);
      var c: Text := if dash then [45, 93] else [93];
      assert (a + b) + c == a + (b + c);
    }
  }

  lemma {:induction false} ReadEnd(pat: Text, pos: nat, dash: bool, prev: int, first: bool, acc: set<Byte>)
    requires At(pat, pos, Inner([], dash)) && -1 <= prev && (first ==> dash)
    ensures SetFrom(pat, pos, pat[pos - 1], prev, false, first, acc)
      == Ok((acc + (if dash then {45} else {}), pos - 1 + |Inner([], dash)|))
  {
    var m: set<Byte> := if dash then {DASH} else {};
    assert Inner([], dash) == SetTail(m);
    ReadTail(pat, pos, m, prev, first, acc);
    assert acc + {} == acc;
  }

  /** The items are added one after the other. */
  lemma {:induction false} ReadItems(pat: Text, pos: nat, items: seq<Item>, dash: bool, prev: int, first: bool,
                                     acc: set<Byte>)
    requires At(pat, pos, Inner(items, dash)) && ItemsOk(items, first, prev != -1) && -1 <= prev
    requires first ==> items != [] || dash
    ensures SetFrom(pat, pos, pat[pos - 1], prev, false, first, acc)
      == Ok((acc + ItemSet(items) + (if dash then {45} else {}), pos - 1 + |Inner(items, dash)|))
    decreases |items|
  {
    hide SetFrom, At, Inner, Between;
    InnerSize(items, dash);
    if items == [] {
      assert acc + ItemSet(items) == acc;
      ReadEnd(pat, pos, dash, prev, first, acc);
    } else {
      var rest := Inner(items[1..], dash);
      InnerSize(items[1..], dash);
      match items[0]
      case One(c) =>
        ReadOne(pat, pos, c, prev, first, acc, rest);
        ReadItems(pat, pos + 1, items[1..], dash, c, false, acc + {c});
        assert acc + {c} + ItemSet(items[1..]) == acc + ItemSet(items);
      case Range(lo, hi) =>
        ReadSpan(pat, pos, lo, hi, prev, first, acc, rest);
        ReadItems(pat, pos + 3, items[1..], dash, -1, false, acc + ({lo} + Between(lo, hi)));
        assert acc + ({lo} + Between(lo, hi)) + ItemSet(items[1..]) == acc + ItemSet(items);
    }
  }

  /** A set, or with a caret its complement, anywhere in a pattern. */
  lemma {:induction false} LexItems(pat: Text, pos: nat, items: seq<Item>, dash: bool, caret: bool, m: set<Byte>)
    requires ItemsOk(items, true, false) && (items != [] || dash) && (!caret ==> Inner(items, dash)[0] != 94)
    requires At(pat, pos + 1, (if caret then [94] else []) + Inner(items, dash))
    requires m == ItemSet(items) + (if dash then {45} else {})
    ensures LexSet(pat, pos) == Ok(Lexed(TAtom(Class(if caret then AllBytes() - m else m)),
                                         pos + (if caret then 1 else 0) + |Inner(items, dash)|))
  {
    hide SetFrom, At, Inner, AllBytes, ItemSet, ItemsOk;
    var t := Inner(items, dash);
    assert {} + ItemSet(items) + (if dash then {45} else {}) == m;
    InnerSize(items, dash);
    if caret {
      AtChar(pat, pos + 1, [94] + t, 0);
      AtSplit(pat, pos + 1, [94], t);
      AtChar(pat, pos + 2, t, 0);
      ReadItems(pat, pos + 2, items, dash, -1, true, {});
    } else {
      assert [] + t == t;
      AtChar(pat, pos + 1, t, 0);
      ReadItems(pat, pos + 1, items, dash, -1, true, {});
    }
  }

  /** A bracketed set matches exactly the characters of its items, or with a caret all others. */
  lemma {:induction false} SetNotation(syn: Syntax, items: seq<Item>, dash: bool, caret: bool)
    requires ItemsOk(items, true, false) && (items != [] || dash) && (!caret ==> Inner(items, dash)[0] != 94)
    ensures var r := ParsePattern(syn, [91] + (if caret then [94] else []) + Inner(items, dash));
      r.Ok? && forall txt: Text, i: nat, j: nat | i <= |txt| && j <= |txt| ::
        Matches(r.value, txt, i, j) <==> i < |txt| && j == i + 1 && (InItems(items, dash, txt[i]) != caret)
  {
    hide Inner, AllBytes, ItemSet, ItemsOk, At, LexSet, Same;
    var t := (if caret then [94] else []) + Inner(items, dash);
    var pat, m := [91] + t, ItemSet(items) + (if dash then {45} else {});
    assert pat == [91] + (if caret then [94] else []) + Inner(items, dash);
    InnerSize(items, dash);
    Bracketed(t);
    LexItems(pat, 1, items, dash, caret, m);
    LexPlain(syn, pat, 0, 91, true);
    var m' := if caret then AllBytes() - m else m;
    var r := OneAtom(syn, pat, Class(m'));
    forall c: Byte ensures c in m' <==> InItems(items, dash, c) != caret {
      ItemSetHas(items, c);
      AllIn(c);
    }
    ClassMatches(r, m');
  }

  lemma {:induction false} ClassMatches(r: Regex, m: set<Byte>)
    requires Same(r, Leaf(Class(m)))
    ensures forall txt: Text, i: nat, j: nat | i <= |txt| && j <= |txt| ::
      Matches(r, txt, i, j) <==> i < |txt| && j == i + 1 && txt[i] in m
  {
    forall txt: Text, i: nat, j: nat | i <= |txt| && j <= |txt|
      ensures Matches(r, txt, i, j) <==> Matches(Leaf(Class(m)), txt, i, j) {}
  }

  lemma {:induction false} AllIn(c: Byte)
    ensures c in AllBytes()
  {
  }

  lemma {:induction false} Bracketed(t: Text)
    requires t != []
    ensures At([91] + t, 2, t) && At([91] + t, 1, [91])
  {
    var pat := [91] + t;
    assert pat[1..1 + |t|] == t && pat[0..1] == [91];
  }

  /** A pattern of one atom. */
  lemma {:induction false} OneAtom(syn: Syntax, pat: Text, a: Atom) returns (r: Regex)
    requires pat != [] && Lex(syn, pat, 0, true) == Ok(Lexed(TAtom(a), |pat|))
    ensures ParsePattern(syn, pat) == Ok(r) && Same(r, Leaf(a))
  {
    hide Lex, Same;
    var st := Parse([], NO_FRAME, 1);
    CatEmpty(Empty);
    var f := Apply(syn.tightVbar, st, TAtom(a)).value.top;
    r := Whole(f);
    SameRefl(Leaf(a));
    SameCat(Cat(Empty, Empty), Empty, Leaf(a), Leaf(a));
    CatEmpty(Leaf(a));
    SameTrans(Cat(f.cat, f.last), Cat(Empty, Leaf(a)), Leaf(a));
    FrameSame(f, Leaf(a));
    assert ParseFrom(syn, pat, |pat|, false, st.(top := f)) == Ok(r);
  }

  /** `[a-z]` is the set of all characters from a to z. */
  lemma {:induction false} RangeNotation(syn: Syntax, lo: Byte, hi: Byte)
    requires lo != 94 && hi != 93 && lo <= hi
    ensures var r := ParsePattern(syn, [91, lo, 45, hi, 93]);
      r.Ok? && forall txt: Text, i: nat, j: nat | i <= |txt| && j <= |txt| ::
        Matches(r.value, txt, i, j) <==> i < |txt| && j == i + 1 && lo <= txt[i] <= hi
  {
    hide Matches, ParsePattern;
    var items := [Range(lo, hi)];
    assert items[1..] == [] && Inner([], false) == [93];
    InnerSize(items, false);
    assert [91] + [] + Inner(items, false) == [91, lo, 45, hi, 93];
    SetNotation(syn, items, false, false);
    forall c: Byte ensures InItems(items, false, c) <==> lo <= c <= hi {
      assert InItem(items[0], c) <==> lo <= c <= hi;
    }
  }

  // ---- Plain text -----------------------------------------------------------------------------------------

  /** Characters that mean something unless they are quoted. */
  predicate Special(syn: Syntax, c: Byte) {
    || c == 92 || c == 42 || c == 91 || c == 94 || c == 36 || c == 46
    || (syn.noBkParens && (c == 40 || c == 41)) || (syn.noBkVbar && c == 124)
    || (!syn.bkPlusQm && (c == 43 || c == 63)) || (syn.newlineOr && c == 10)
  }

  /** The text with a backslash before every special character. */
  function Escaped(syn: Syntax, s: Text): Text {
    if s == [] then [] else (if Special(syn, s[0]) then [92, s[0]] else [s[0]]) + Escaped(syn, s[1..])
  }

  function Chars(s: Text): (ps: seq<Piece>)
    ensures |ps| == |s|
  {
    if s == [] then [] else [Sub(Leaf(Char(s[0])))] + Chars(s[1..])
  }

  lemma {:induction false} SpecialOp(syn: Syntax, c: Byte)
    ensures PlainOp(syn, c) == Rnormal <==> !Special(syn, c)
  {
  }

  lemma {:induction false} CharTokens(c: Byte)
    ensures Tokens(Leaf(Char(c)), 1) == [TAtom(Char(c))]
  {
    assert Core(Leaf(Char(c))) == [TAtom(Char(c))];
  }

  lemma {:induction false} CharsOk(syn: Syntax, s: Text, first: bool)
    ensures LineOk(syn, Chars(s), first, false) && NoneLiteral(Chars(s), first)
    ensures TextOf(syn, LineTokens(Chars(s))) == Escaped(syn, s)
    ensures forall t <- LineTokens(Chars(s)) :: t.TAtom? && t.a.Char?
    decreases |s|
  {
    hide PlainOp, Special, Tokens;
    if s != [] {
      var p, ps := Sub(Leaf(Char(s[0]))), Chars(s[1..]);
      CharsOk(syn, s[1..], false);
      SpecialOp(syn, s[0]);
      assert Chars(s)[1..] == ps;
      CharTokens(s[0]);
      assert LineTokens(Chars(s))[1..] == LineTokens(ps);
    }
  }

  lemma {:induction false} CharsNext(s: Text, first: bool, m: Regex)
    ensures Reading(Chars(s), first, m) ==
      if s == [] then m else Reading(Chars(s[1..]), false, Cat(m, Leaf(Char(s[0]))))
  {
    if s != [] { assert Chars(s)[1..] == Chars(s[1..]); }
  }

  lemma {:induction false} CharsMatch(s: Text, first: bool, m: Regex, txt: Text, i: nat, j: nat)
    requires i <= |txt| && j <= |txt|
    ensures Matches(Reading(Chars(s), first, m), txt, i, j) <==>
      |s| <= j && Matches(m, txt, i, j - |s|) && txt[j - |s|..j] == s
    decreases |s|
  {
    hide Matches, Reading, Chars;
    CharsNext(s, first, m);
    if s == [] {
      assert txt[j..j] == [];
    } else {
      var n, k := Cat(m, Leaf(Char(s[0]))), j - (|s| - 1);
      CharsMatch(s[1..], false, n, txt, i, j);
      if k >= 0 { OneChar(m, s[0], txt, i, k); }
      if k > 0 { SplitFirst(txt, s, k - 1, j); }
    }
  }

  lemma {:induction false} SplitFirst(txt: Text, s: Text, k: nat, j: nat)
    requires s != [] && k + |s| == j <= |txt|
    ensures txt[k..j] == s <==> txt[k] == s[0] && txt[k + 1..j] == s[1..]
  {
    assert txt[k..j] == [txt[k]] + txt[k + 1..j];
    assert s == [s[0]] + s[1..];
  }

  lemma {:induction false} OneChar(m: Regex, c: Byte, txt: Text, i: nat, k: nat)
    requires i <= |txt| && k <= |txt|
    ensures Matches(Cat(m, Leaf(Char(c))), txt, i, k) <==> k > 0 && txt[k - 1] == c && Matches(m, txt, i, k - 1)
  {
    var l := Leaf(Char(c));
    forall q: nat | q <= |txt| ensures Matches(l, txt, q, k) <==> k == q + 1 && txt[q] == c {}
  }

  lemma {:induction false} CharsFaultless(syn: Syntax, ts: seq<Tok>, begins: bool)
    requires forall t <- ts :: t.TAtom? && t.a.Char?
    ensures Fault(syn, ts, begins, [], 0) == Basics.None
    decreases |ts|
  {
    if ts != [] { CharsFaultless(syn, ts[1..], false); }
  }

  /** Text with its special characters quoted matches itself and nothing else. */
  lemma {:induction false} MatchesItself(syn: Syntax, s: Text)
    ensures var r := ParsePattern(syn, Escaped(syn, s));
      r.Ok? && forall txt: Text, i: nat, j: nat | i <= |txt| && j <= |txt| ::
        Matches(r.value, txt, i, j) <==> j == i + |s| && txt[i..j] == s
  {
    hide Matches, ParsePattern, LineOk, NoneLiteral, Escaped, Reading, Chars, LineTokens;
    var ps := Chars(s);
    CharsOk(syn, s, true);
    LineReads(syn, ps);
    assert forall t <- LineTokens(ps) :: Written(syn, t);
    FirstFault(syn, LineTokens(ps));
    CharsFaultless(syn, LineTokens(ps), true);
    var r := ParsePattern(syn, Escaped(syn, s)).value;
    forall txt: Text, i: nat, j: nat | i <= |txt| && j <= |txt|
      ensures Matches(r, txt, i, j) <==> j == i + |s| && txt[i..j] == s
    {
      assert Matches(r, txt, i, j) <==> Matches(Reading(ps, true, Empty), txt, i, j);
      CharsMatch(s, true, Empty, txt, i, j);
      if j >= |s| { NothingBefore(txt, i, j - |s|); }
    }
  }

  lemma {:induction false} NothingBefore(txt: Text, i: nat, j: nat)
    requires i <= |txt| && j <= |txt|
    ensures Matches(Empty, txt, i, j) <==> i == j
  {
  }

  // ---- Text that ends too soon, and register 0 --------------------------------------------------------

  /** Without a closing bracket after its first member, a set does not end. */
  lemma {:induction false} SetUnended(pat: Text, pos: nat, ch: Byte, prev: int, range: bool, first: bool,
                                      acc: set<Byte>)
    requires pos <= |pat| && -1 <= prev && (range ==> prev >= 0)
    requires 93 !in pat[pos..] && (ch == 93 ==> first)
    ensures SetFrom(pat, pos, ch, prev, range, first, acc) == Err(EndsPrematurely)
    decreases |pat| - pos
  {
    hide Between;
    if pos < |pat| {
      assert pat[pos] in pat[pos..];
      assert forall c <- pat[pos + 1..] :: c in pat[pos..];
      var (acc', prev', range') :=
        if range then (acc + Between(prev, ch), -1, false)
        else if prev != -1 && ch == DASH then (acc, prev, true)
        else (acc + {ch}, ch, false);
      SetUnended(pat, pos + 1, pat[pos], prev', range', false, acc');
    }
  }

  /** The text of an expression and then something unfinished is refused: a lone backslash, or an opening
      bracket without a closing one. So is a reference to register 0. */
  lemma {:induction false} Unfinished(syn: Syntax, r: Regex, more: Text)
    requires Spells(syn, r)
    ensures var res := ParsePattern(syn, TextOf(syn, Tokens(r, 1)) + more);
      && (more == [92] ==> res == Err(EndsPrematurely) || res == Err(TooComplex))
      && (|more| > 0 && more[0] == 91 && 93 !in more ==> res == Err(EndsPrematurely) || res == Err(TooComplex))
      && (|more| > 1 && more[0] == 92 && more[1] == 48 ==> res == Err(BadMatchRegister) || res == Err(TooComplex))
  {
    hide Spells, Tokens, TextOf, ParseFrom, AllInPlace, ApplyAll;
    var ts, st := Tokens(r, 1), Parse([], NO_FRAME, 1);
    var pat := TextOf(syn, ts) + more;
    TokensWritten(syn, r, 1);
    assert pat[0..] == pat;
    ParsePrefix(syn, pat, 0, ts, more, true, st);
    ReadsTokens(syn.tightVbar, r, 1, st);
    if more != [] && ApplyAll(syn.tightVbar, st, ts).Ok? {
      UnfinishedLex(syn, pat, |TextOf(syn, ts)|, more, After(ts, true));
      ParseStops(syn, pat, |TextOf(syn, ts)|, After(ts, true), ApplyAll(syn.tightVbar, st, ts).value);
    }
  }

  lemma {:induction false} ParseStops(syn: Syntax, pat: Text, pos: nat, begins: bool, st: Parse)
    requires pos < |pat|
    ensures Lex(syn, pat, pos, begins).Err? ==>
      ParseFrom(syn, pat, pos, begins, st) == Err(Lex(syn, pat, pos, begins).error)
  {
    hide Lex, Apply;
  }

  lemma {:induction false} UnfinishedLex(syn: Syntax, pat: Text, pos: nat, more: Text, begins: bool)
    requires pos < |pat| && pat[pos..] == more
    ensures var res := Lex(syn, pat, pos, begins);
      && (more == [92] ==> res == Err(EndsPrematurely))
      && (more[0] == 91 && 93 !in more ==> res == Err(EndsPrematurely))
      && (|more| > 1 && more[0] == 92 && more[1] == 48 ==> res == Err(BadMatchRegister))
  {
    hide LexSet, EndsHere, Literal;
    assert pat[pos] == more[0];
    if |more| > 1 { assert pat[pos + 1] == more[1]; }
    if more[0] == 91 && 93 !in more { UnendedLex(pat, pos + 1, more); }
  }

  lemma {:induction false} UnendedLex(pat: Text, pos: nat, more: Text)
    requires 0 < pos <= |pat| && pat[pos - 1..] == more && 93 !in more
    ensures LexSet(pat, pos) == Err(EndsPrematurely)
  {
    hide SetFrom, AllBytes;
    assert forall c <- pat[pos..] :: c in more;
    if pos < |pat| {
      if pat[pos] != 94 {
        SetUnended(pat, pos + 1, pat[pos], -1, false, true, {});
      } else if pos + 1 < |pat| {
        SetUnended(pat, pos + 2, pat[pos + 1], -1, false, true, {});
      }
    }
  }
}
