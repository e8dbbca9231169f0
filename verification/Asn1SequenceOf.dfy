/** The decoder of SEQUENCE OF and SET OF: splits the contents into raw elements of expected types. */
module Asn1SequenceOf {
  import opened Basics
  import opened Ber
  import BerForms

  const SEQUENCE: Word := 16
  const SET: Word := 17

  /** Whether decoding succeeded, and the raw elements found. */
  datatype Parts = Parts(ok: bool, elements: seq<seq<Byte>>)

  /** The elements at the front of src, up to the first whose tag is not among the types. */
  function ElementsFrom(src: seq<Byte>, types: seq<Word>): Parts
    requires |src| < WORD
    decreases |src|
  {
    if src == [] then Parts(true, [])
    else
      match DecodeOf(src)
      case None => Parts(false, [])
      case Some(o) =>
        if o.h.tag !in types then Parts(true, [])
        else
          var rest := ElementsFrom(src[o.start + o.len..], types);
          Parts(rest.ok, [src[..o.start + o.len]] + rest.elements)
  }

  /** An object that is neither SEQUENCE nor SET has no elements, which is not reported as a failure. */
  function SequenceOf(src: seq<Byte>, types: seq<Word>): Parts
    requires |src| < WORD
  {
    match DecodeOf(src)
    case None => Parts(false, [])
    case Some(o) =>
      if o.h.tag != SEQUENCE && o.h.tag != SET then Parts(true, [])
      else ElementsFrom(src[o.start..], types)
  }

  /** The loop over the list of types. */
  method Expected(types: seq<Word>, tag: Word) returns (found: bool)
    ensures found <==> tag in types
  {
    found := false;
    var k := 0;
    while k < |types|
      invariant k <= |types| && tag !in types[..k]
    {
      if types[k] == tag { return true; }
      assert types[..k + 1] == types[..k] + [types[k]];
      k := k + 1;
    }
    assert types[..k] == types;
  }

  lemma {:induction false} Onward(src: seq<Byte>, types: seq<Word>)
    requires src != [] && |src| < WORD
    ensures ElementsFrom(src, types) ==
      match DecodeOf(src)
      case None => Parts(false, [])
      case Some(o) =>
        if o.h.tag !in types then Parts(true, [])
        else
          var rest := ElementsFrom(src[o.start + o.len..], types);
          Parts(rest.ok, [src[..o.start + o.len]] + rest.elements)
  {
  }

  lemma {:induction false} NoElements(src: seq<Byte>, types: seq<Word>)
    requires src == []
    ensures ElementsFrom(src, types) == Parts(true, [])
  {
  }

  /** silc_asn1_decoder_sof. */
  method DecodeSequenceOf(buffer: seq<Byte>, types: seq<Word>) returns (ret: bool, retb: seq<seq<Byte>>)
    requires |buffer| < WORD
    ensures Parts(ret, retb) == SequenceOf(buffer, types)
  {
    hide DecodeOf, ElementsFrom;
    retb := [];
    var src := buffer;
    var r := Decode(src);
    if r.None? { return false, retb; }
    if r.value.h.tag != SEQUENCE && r.value.h.tag != SET { return true, retb; }
    src := src[r.value.start..];
    ghost var inner := src;
    ret := true;
    while |src| != 0
      invariant |src| < WORD
      invariant var all, rest := ElementsFrom(inner, types), ElementsFrom(src, types);
        all == Parts(rest.ok, retb + rest.elements)
      decreases |src|
    {
      Onward(src, types);
      r := Decode(src);
      if r.None? { return false, retb; }
      var found := Expected(types, r.value.h.tag);
      if !found { return true, retb; }
      var size := r.value.start + r.value.len;
      retb := retb + [src[..size]];
      src := src[size..];
    }
    NoElements(src, types);
  }

  // ---- On well-formed input ------------------------------------------------------------------------------

  datatype Element = Element(h: Header, data: seq<Byte>) {
    ghost predicate Ok() { h.Ok() && |data| < WORD }
    ghost function Raw(): seq<Byte> requires Ok() { Encoding(h, data, false) }
  }

  ghost predicate AllOk(es: seq<Element>) {
    forall k :: 0 <= k < |es| ==> es[k].Ok()
  }

  /** The definite-length encodings of some elements, one after the other. */
  ghost function Contents(es: seq<Element>): seq<Byte>
    requires AllOk(es)
  {
    if es == [] then [] else es[0].Raw() + Contents(es[1..])
  }

  ghost function Raws(es: seq<Element>): (r: seq<seq<Byte>>)
    requires AllOk(es)
    ensures |r| == |es| && forall k :: 0 <= k < |es| ==> r[k] == es[k].Raw()
  {
    if es == [] then [] else [es[0].Raw()] + Raws(es[1..])
  }

  /** How many elements at the front are of the expected types. */
  ghost function Leading(es: seq<Element>, types: seq<Word>): (n: nat)
    ensures n <= |es| && (forall k :: 0 <= k < n ==> es[k].h.tag in types) && (n < |es| ==> es[n].h.tag !in types)
  {
    if es == [] || es[0].h.tag !in types then 0 else 1 + Leading(es[1..], types)
  }

  lemma {:induction false} SplitContents(es: seq<Element>, types: seq<Word>)
    requires AllOk(es) && |Contents(es)| < WORD
    ensures ElementsFrom(Contents(es), types) == Parts(true, Raws(es[..Leading(es, types)]))
    decreases |es|
  {
    hide DecodeOf, Encoding;
    if es == [] {
      assert es[..0] == [];
    } else {
      var e, rest, src := es[0], Contents(es[1..]), Contents(es);
      RoundTrip(e.h, e.data, rest);
      assert e.Raw() + rest == src;
      var n := |e.Raw()|;
      assert src[..n] == e.Raw() && src[n..] == rest;
      assert n > 0;
      if e.h.tag in types {
        SplitContents(es[1..], types);
        var m := Leading(es[1..], types);
        assert es[..1 + m][0] == e && es[..1 + m][1..] == es[1..][..m];
      } else {
        assert es[..0] == [];
      }
    }
  }

  /** The raw elements, put together again. */
  ghost function Joined(rs: seq<seq<Byte>>): seq<Byte> {
    if rs == [] then [] else rs[0] + Joined(rs[1..])
  }

  lemma {:induction false} JoinedRaws(es: seq<Element>, n: nat)
    requires AllOk(es) && n <= |es|
    ensures Contents(es) == Joined(Raws(es[..n])) + Contents(es[n..])
    decreases n
  {
    hide Joined, Raws, Contents;
    if n == 0 {
      assert es[0..] == es;
      NoRaws(es);
    } else {
      JoinedRaws(es[1..], n - 1);
      RawsOn(es, n);
      assert es[1..][n - 1..] == es[n..];
    }
  }

  lemma {:induction false} NoRaws(es: seq<Element>)
    requires AllOk(es)
    ensures Joined(Raws(es[..0])) == []
  {
  }

  lemma {:induction false} RawsOn(es: seq<Element>, n: nat)
    requires AllOk(es) && 0 < n <= |es|
    ensures Joined(Raws(es[..n])) == es[0].Raw() + Joined(Raws(es[1..][..n - 1]))
    ensures Contents(es) == es[0].Raw() + Contents(es[1..])
  {
    hide Encoding;
    assert es[..n][0] == es[0] && es[..n][1..] == es[1..][..n - 1];
    var rest := Raws(es[1..][..n - 1]);
    assert ([es[0].Raw()] + rest)[1..] == rest;
  }

  /** On exactly one definite-length SEQUENCE or SET of definite-length elements, the decoder succeeds and
      returns, in order, the longest prefix of raw elements of the expected types. Put together they
      are the contents up to the first other element, and all of them if there is none. */
  lemma {:induction false} Conservation(outer: Header, es: seq<Element>, types: seq<Word>)
    requires outer.Ok() && (outer.tag == SEQUENCE || outer.tag == SET) && AllOk(es)
    requires |Contents(es)| < WORD && |Encoding(outer, Contents(es), false)| < WORD
    ensures var r, n := SequenceOf(Encoding(outer, Contents(es), false), types), Leading(es, types);
      && r == Parts(true, Raws(es[..n]))
      && Contents(es) == Joined(r.elements) + Contents(es[n..])
      && (n == |es| ==> Joined(r.elements) == Contents(es))
  {
    hide DecodeOf, Encoding, HeaderOctets;
    var ber := Encoding(outer, Contents(es), false);
    assert ber + [] == ber;
    RoundTrip(outer, Contents(es), []);
    var start := |HeaderOctets(outer, |Contents(es)|, false)|;
    assert ber[start..start + |Contents(es)|] == ber[start..];
    SplitContents(es, types);
    var n := Leading(es, types);
    JoinedRaws(es, n);
    if n == |es| { assert es[n..] == []; }
  }

  /** Another object is reported as decoded, with no elements. */
  lemma {:induction false} OtherObject(h: Header, data: seq<Byte>, types: seq<Word>)
    requires h.Ok() && h.tag != SEQUENCE && h.tag != SET && |data| < WORD && |Encoding(h, data, false)| < WORD
    ensures SequenceOf(Encoding(h, data, false), types) == Parts(true, [])
  {
    hide DecodeOf, Encoding;
    assert Encoding(h, data, false) + [] == Encoding(h, data, false);
    RoundTrip(h, data, []);
  }

  // ---- On input cut short --------------------------------------------------------------------------------

  ghost predicate AllExpected(es: seq<Element>, types: seq<Word>) {
    forall k :: 0 <= k < |es| ==> es[k].h.tag in types
  }

  /** Something that is no object ends the list with a failure. */
  lemma {:induction false} Broken(es: seq<Element>, types: seq<Word>, junk: seq<Byte>)
    requires AllOk(es) && AllExpected(es, types) && |Contents(es)| + |junk| < WORD
    requires junk != [] && DecodeOf(junk) == None
    ensures ElementsFrom(Contents(es) + junk, types) == Parts(false, Raws(es))
    decreases |es|
  {
    hide DecodeOf, Encoding;
    var src := Contents(es) + junk;
    if es == [] {
      assert src == junk;
    } else {
      var e, rest := es[0], Contents(es[1..]) + junk;
      assert src == e.Raw() + rest;
      RoundTrip(e.h, e.data, rest);
      var n := |e.Raw()|;
      assert src[..n] == e.Raw() && src[n..] == rest;
      Broken(es[1..], types, junk);
    }
  }

  /** A SEQUENCE or SET whose contents, after expected elements, end inside an element is refused, with
      the elements before it; so is one that is itself cut short, with none. */
  lemma {:induction false} CutShort(outer: Header, es: seq<Element>, types: seq<Word>, last: Element, k: nat)
    requires outer.Ok() && (outer.tag == SEQUENCE || outer.tag == SET) && AllOk(es) && AllExpected(es, types)
    requires last.Ok() && 0 < k < |last.Raw()| < WORD && |Contents(es)| + k < WORD
    requires |Encoding(outer, Contents(es) + last.Raw()[..k], false)| < WORD
    ensures var buffer := Encoding(outer, Contents(es) + last.Raw()[..k], false);
      && SequenceOf(buffer, types) == Parts(false, Raws(es))
      && forall m :: 0 <= m < |buffer| ==> SequenceOf(buffer[..m], types) == Parts(false, [])
  {
    hide DecodeOf, Encoding, HeaderOctets, ElementsFrom;
    var contents := Contents(es) + last.Raw()[..k];
    var buffer := Encoding(outer, contents, false);
    BerForms.Truncated(last.h, last.data, k);
    Broken(es, types, last.Raw()[..k]);
    assert buffer + [] == buffer;
    RoundTrip(outer, contents, []);
    var start := |HeaderOctets(outer, |contents|, false)|;
    assert buffer[start..start + |contents|] == buffer[start..];
    forall m | 0 <= m < |buffer| ensures SequenceOf(buffer[..m], types) == Parts(false, []) {
      BerForms.Truncated(outer, contents, m);
    }
  }
}
