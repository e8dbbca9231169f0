/** What the decoder accepts: the forms of section 8.1 of ITU-T X.690, not only those the encoder writes. */
module BerForms {
  import opened Basics
  import opened Ber

  // ---- Forms ----------------------------------------------------------------------------------------------

  /** The groups of seven bits that tag octets carry. */
  function Groups(x: seq<Byte>): (g: seq<Byte>)
    ensures |g| == |x| && forall k :: 0 <= k < |x| ==> g[k] == x[k] % 128
  {
    if x == [] then [] else [x[0] % 128] + Groups(x[1..])
  }

  /** All octets but the last have bit 8 set. */
  predicate Linked(x: seq<Byte>) {
    && x != [] && x[|x| - 1] < 0x80
    && forall k :: 0 <= k < |x| - 1 ==> x[k] >= 0x80
  }

  /** The identifier octets first and x hold the tag, in 32 bits. */
  predicate TagForm(first: Byte, x: seq<Byte>, tag: Word) {
    if first % 32 != 31 then x == [] && tag == first % 32
    else Linked(x) && tag == Number(0, Groups(x), Seven) % WORD
  }

  /** The length octets l hold n, in 32 bits, in the short or the long form. */
  predicate LengthForm(l: seq<Byte>, n: nat) {
    || (|l| == 1 && l[0] < 0x80 && n == l[0])
    || (|l| > 1 && l[0] == 0x80 + (|l| - 1) && n == Number(0, l[1..], Eight) % WORD)
  }

  predicate ZeroPair(ber: seq<Byte>, c: nat) {
    c + 1 < |ber| && ber[c] == 0 && ber[c + 1] == 0
  }

  /** The data from start to e reach the first two zero octets at an even distance, or else all but the
      last octet. */
  predicate EndForm(ber: seq<Byte>, start: nat, e: nat) {
    && start <= e < |ber| && (e - start) % 2 == 0 && (ZeroPair(ber, e) || e + 1 == |ber|)
    && forall c :: start <= c < e && (c - start) % 2 == 0 ==> !ZeroPair(ber, c)
  }

  /** The buffer begins with this object, whose tag octets end at i. After a length in the long form there
      has to be an octet, even if the length is 0. */
  predicate FormAt(ber: seq<Byte>, o: Object, i: nat) {
    && 0 < i < o.start && o.start + o.len <= |ber|
    && o.h.cls == ber[0] / 64 && o.h.constructed == ber[0] / 32 % 2 && TagForm(ber[0], ber[1..i], o.h.tag)
    && if o.indefinite then ber[i] == 0x80 && o.start == i + 1 && EndForm(ber, o.start, o.start + o.len)
       else LengthForm(ber[i..o.start], o.len) && (ber[i] > 0x80 ==> o.start < |ber|)
  }

  // ---- Reading in 32 bits ---------------------------------------------------------------------------------

  lemma {:induction false} JoinReduced(a: nat, d: nat, base: Base)
    ensures base.Join(a % WORD, d) % WORD == base.Join(a, d) % WORD
  {
    assert a == WORD * (a / WORD) + a % WORD;
    Multiple(128 * (a / WORD), 128 * (a % WORD) + d);
    Multiple(256 * (a / WORD), 256 * (a % WORD) + d);
  }

  lemma {:induction false} Multiple(q: nat, r: nat)
    ensures (WORD * q + r) % WORD == r % WORD
  {
  }

  lemma {:induction false} NumberReduced(a: nat, d: seq<Byte>, base: Base)
    ensures Number(a % WORD, d, base) % WORD == Number(a, d, base) % WORD
  {
    if d != [] {
      var k := |d| - 1;
      NumberReduced(a, d[..k], base);
      JoinReduced(Number(a % WORD, d[..k], base), d[k], base);
      JoinReduced(Number(a, d[..k], base), d[k], base);
    }
  }

  /** The digits taken in from the front, each sum reduced. */
  lemma {:induction false} NumberOn(a: Word, d: seq<Byte>, base: Base)
    requires d != []
    ensures Number(a, d, base) % WORD == Number(base.Join(a, d[0]) % WORD, d[1..], base) % WORD
  {
    NumberFirst(a, d, base);
    NumberReduced(base.Join(a, d[0]), d[1..], base);
  }

  lemma {:induction false} LinkedOn(x: seq<Byte>)
    requires x != []
    ensures Linked(x) <==> if x[0] < 0x80 then |x| == 1 else |x| > 1 && Linked(x[1..])
  {
    var y := x[1..];
    if x[0] >= 0x80 && Linked(y) {
      forall k | 0 <= k < |x| - 1 ensures x[k] >= 0x80 { if k > 0 { assert x[k] == y[k - 1]; } }
    }
    if x[0] >= 0x80 && Linked(x) {
      forall k | 0 <= k < |y| - 1 ensures y[k] >= 0x80 { assert y[k] == x[k + 1]; }
    }
  }

  lemma {:induction false} TagFromForm(ber: seq<Byte>, i: nat, t: Word, j: nat, v: Word)
    requires i < |ber|
    ensures TagFrom(ber, i, t) == Some((j, v)) <==>
      i < j <= |ber| && Linked(ber[i..j]) && v == Number(t, Groups(ber[i..j]), Seven) % WORD
    decreases |ber| - i
  {
    hide TagFrom, Linked, Number;
    TagNext(ber, i, t);
    if i < j <= |ber| {
      var x := ber[i..j];
      assert x[1..] == ber[i + 1..j];
      LinkedOn(x);
      NumberOn(t, Groups(x), Seven);
      if |x| == 1 { NumberNone(Seven.Join(t, x[0] % 128) % WORD, Groups(x)[1..], Seven); }
    }
    if ber[i] >= 0x80 && i + 1 < |ber| {
      TagFromForm(ber, i + 1, (128 * t + ber[i] % 128) % WORD, j, v);
    }
  }

  lemma {:induction false} LengthFromForm(ber: seq<Byte>, i: nat, c: nat, n: Word, j: nat, v: Word)
    requires i < |ber|
    ensures LengthFrom(ber, i, c, n) == Some((j, v)) <==>
      j == i + c < |ber| && v == Number(n, ber[i..j], Eight) % WORD
    decreases c
  {
    hide LengthFrom, Number;
    LengthNext(ber, i, c, n);
    if c == 0 {
      NumberNone(n, ber[i..i], Eight);
    } else if i + 1 < |ber| {
      LengthFromForm(ber, i + 1, c - 1, (256 * n + ber[i]) % WORD, j, v);
      if j == i + c < |ber| {
        var d := ber[i..j];
        assert d[1..] == ber[i + 1..j];
        NumberOn(n, d, Eight);
      }
    }
  }

  lemma {:induction false} EndFromForm(ber: seq<Byte>, start: nat, c: nat, e: nat)
    requires start <= c <= |ber| && (c - start) % 2 == 0
    requires forall b :: start <= b < c && (b - start) % 2 == 0 ==> !ZeroPair(ber, b)
    ensures EndFrom(ber, c) == e < |ber| <==> c <= e && EndForm(ber, start, e)
    decreases |ber| - c
  {
    if c + 1 < |ber| && !ZeroPair(ber, c) {
      EndFromForm(ber, start, c + 2, e);
    }
  }

  // ---- What is accepted -----------------------------------------------------------------------------------

  lemma {:induction false} TagOfForm(ber: seq<Byte>, i: nat, tag: Word)
    requires ber != []
    ensures TagOf(ber) == Some((i, tag)) <==> 0 < i <= |ber| && TagForm(ber[0], ber[1..i], tag)
  {
    hide TagFrom, Number, Groups;
    if ber[0] % 32 == 31 {
      if |ber| > 1 { TagFromForm(ber, 1, 0, i, tag); }
      if i == 1 { assert ber[1..i] == []; }
    }
  }

  lemma {:induction false} LengthOfForm(ber: seq<Byte>, i: nat, j: nat, n: Word)
    requires i < |ber| < WORD
    ensures LengthOf(ber, i) == Some((j, n, false)) <==>
      i < j <= |ber| && LengthForm(ber[i..j], n) && (ber[i] > 0x80 ==> j < |ber|)
  {
    hide LengthFrom, Number, EndFrom;
    if i < j <= |ber| {
      var l := ber[i..j];
      assert l[0] == ber[i] && l[1..] == ber[i + 1..j];
    }
    if ber[i] > 0x80 && i + 1 < |ber| { LengthFromForm(ber, i + 1, ber[i] - 0x80, 0, j, n); }
  }

  lemma {:induction false} EndOfForm(ber: seq<Byte>, i: nat, j: nat, n: Word)
    requires i < |ber| < WORD
    ensures LengthOf(ber, i) == Some((j, n, true)) <==> ber[i] == 0x80 && j == i + 1 && EndForm(ber, j, j + n)
  {
    hide LengthFrom, EndFrom;
    if ber[i] == 0x80 { EndFromForm(ber, i + 1, i + 1, i + 1 + n); }
  }

  /** The decoder accepts a buffer if and only if it begins with an object in one of the forms, and
      answers that object. */
  lemma {:induction false} Accepts(ber: seq<Byte>, o: Object)
    requires |ber| < WORD
    ensures DecodeOf(ber) == Some(o) <==> exists i :: FormAt(ber, o, i)
  {
    hide TagOf, LengthOf, TagForm, LengthForm, EndForm;
    if DecodeOf(ber) == Some(o) {
      var i := TagOf(ber).value.0;
      TagOfForm(ber, i, o.h.tag);
      LengthOfForm(ber, i, o.start, o.len);
      EndOfForm(ber, i, o.start, o.len);
      assert FormAt(ber, o, i);
    }
    if i: nat :| FormAt(ber, o, i) {
      TagOfForm(ber, i, o.h.tag);
      LengthOfForm(ber, i, o.start, o.len);
      EndOfForm(ber, i, o.start, o.len);
    }
  }

  // ---- Prefixes -------------------------------------------------------------------------------------------

  /** Tag octets end at one place. */
  lemma {:induction false} OneTag(ber: seq<Byte>, i: nat, t: Word, j: nat, u: Word)
    requires 0 < i <= |ber| && 0 < j <= |ber| && TagForm(ber[0], ber[1..i], t) && TagForm(ber[0], ber[1..j], u)
    ensures i == j && t == u
  {
    hide TagOf, TagForm;
    TagOfForm(ber, i, t);
    TagOfForm(ber, j, u);
  }

  /** The form does not depend on what follows, nor on the end of the buffer, if the length is definite. */
  lemma {:induction false} FormStays(ber: seq<Byte>, more: seq<Byte>, o: Object, i: nat)
    requires |ber| + |more| < WORD && FormAt(ber, o, i)
    ensures !o.indefinite ==> FormAt(ber + more, o, i)
  {
    hide TagForm, LengthForm, EndForm;
    var b := ber + more;
    assert b[1..i] == ber[1..i] && b[i..o.start] == ber[i..o.start];
  }

  /** An object of definite length that has been decoded is decoded, the same, whatever follows. */
  lemma {:induction false} Stable(ber: seq<Byte>, more: seq<Byte>)
    requires |ber| + |more| < WORD && DecodeOf(ber).Some? && !DecodeOf(ber).value.indefinite
    ensures DecodeOf(ber + more) == DecodeOf(ber)
  {
    hide DecodeOf, FormAt;
    var o := DecodeOf(ber).value;
    Accepts(ber, o);
    var i: nat :| FormAt(ber, o, i);
    FormStays(ber, more, o, i);
    Accepts(ber + more, o);
  }

  lemma {:induction false} LengthKind(l: seq<Byte>, n: nat)
    requires LengthForm(l, n)
    ensures l != [] && l[0] != 0x80
  {
  }

  lemma {:induction false} OneKind(ber: seq<Byte>, more: seq<Byte>, o: Object, i: nat, p: Object, j: nat)
    requires FormAt(ber, o, i) && FormAt(ber + more, p, j)
    ensures o.indefinite == p.indefinite
  {
    hide TagForm, LengthForm, EndForm;
    var b := ber + more;
    assert b[1..i] == ber[1..i];
    OneTag(b, i, o.h.tag, j, p.h.tag);
    if !o.indefinite { LengthKind(ber[i..o.start], o.len); }
    if !p.indefinite { LengthKind(b[i..p.start], p.len); }
  }

  /** The first length octet tells whether the length is definite. */
  lemma {:induction false} Definite(ber: seq<Byte>, more: seq<Byte>)
    requires |ber| + |more| < WORD && DecodeOf(ber).Some? && DecodeOf(ber + more).Some?
    ensures DecodeOf(ber).value.indefinite == DecodeOf(ber + more).value.indefinite
  {
    hide DecodeOf, FormAt;
    var o, p := DecodeOf(ber).value, DecodeOf(ber + more).value;
    Accepts(ber, o);
    Accepts(ber + more, p);
    var i: nat :| FormAt(ber, o, i);
    var j: nat :| FormAt(ber + more, p, j);
    OneKind(ber, more, o, i, p, j);
  }

  /** No proper prefix of a definite-length encoding is decoded. */
  lemma {:induction false} Truncated(h: Header, data: seq<Byte>, k: nat)
    requires h.Ok() && |data| < WORD && k < |Encoding(h, data, false)| < WORD
    ensures DecodeOf(Encoding(h, data, false)[..k]) == None
  {
    hide DecodeOf, Encoding, HeaderOctets;
    var e := Encoding(h, data, false);
    assert e[..k] + e[k..] == e && e + [] == e;
    RoundTrip(h, data, []);
    if DecodeOf(e[..k]).Some? {
      Definite(e[..k], e[k..]);
      Stable(e[..k], e[k..]);
    }
  }

  // ---- The shortest forms ---------------------------------------------------------------------------------

  /** Fewer digits make smaller numbers. */
  lemma {:induction false} DigitsFewest(n: nat, d: seq<Byte>, base: Base)
    requires Number(0, d, base) == n && forall k :: 0 <= k < |d| ==> d[k] < base.Size()
    ensures |Digits(n, base)| <= |d|
    decreases |d|
  {
    if n > 0 { DigitsFewest(base.High(n), d[..|d| - 1], base); }
  }

  /** The encoder's tag octets are the fewest that hold the tag. */
  lemma {:induction false} TagShortest(first: Byte, x: seq<Byte>, tag: Word)
    requires TagForm(first, x, tag) && Number(0, Groups(x), Seven) < WORD
    ensures |TagOctets(tag)| <= |x|
  {
    hide Number, Digits, Linked, Marked;
    if first % 32 == 31 { DigitsFewest(tag, Groups(x), Seven); }
  }

  /** The encoder's length octets are the fewest that hold the length. */
  lemma {:induction false} LengthShortest(l: seq<Byte>, n: Word)
    requires LengthForm(l, n) && (|l| > 1 ==> Number(0, l[1..], Eight) < WORD)
    ensures |LengthOctets(n)| <= |l|
  {
    hide Number, Digits;
    LengthDigits(n);
    if |l| > 1 { DigitsFewest(n, l[1..], Eight); }
  }
}
