/** The encoding against the table of forms in section 2 of RFC 2279. */
module Utf8Forms {
  import opened Utf8

  /** A number by its digits to base 64, the highest first. */
  function Digits(d: seq<int>): int {
    if d == [] then 0 else d[0] * Power64(|d| - 1) + Digits(d[1..])
  }

  /** The six bits that each continuation byte carries. */
  function Bits(t: seq<Byte>): seq<int> {
    seq(|t|, i requires 0 <= i < |t| => t[i] as int - 0x80)
  }

  /** The bytes have one of the six forms of the table and hold c, be it in the shortest form or a longer
      one. */
  predicate Represents(e: seq<Byte>, c: nat) {
    && (forall k :: 1 <= k < |e| ==> 0x80 <= e[k] < 0xc0)
    && match |e| {
         case 1 => e[0] < 0x80 && c == e[0]
         case 2 => 0xc0 <= e[0] < 0xe0 && c == Digits([e[0] - 0xc0] + Bits(e[1..]))
         case 3 => 0xe0 <= e[0] < 0xf0 && c == Digits([e[0] - 0xe0] + Bits(e[1..]))
         case 4 => 0xf0 <= e[0] < 0xf8 && c == Digits([e[0] - 0xf0] + Bits(e[1..]))
         case 5 => 0xf8 <= e[0] < 0xfc && c == Digits([e[0] - 0xf8] + Bits(e[1..]))
         case 6 => 0xfc <= e[0] < 0xfe && c == Digits([e[0] - 0xfc] + Bits(e[1..]))
         case _ => false
       }
  }

  lemma {:induction false} DigitsLow(d: seq<int>, x: int)
    ensures Digits(d + [x]) == 64 * Digits(d) + x
  {
    if d == [] {
      assert [x][1..] == [];
    } else {
      assert (d + [x])[1..] == d[1..] + [x];
      DigitsLow(d[1..], x);
    }
  }

  lemma {:induction false} FoldDigits(acc: nat, t: seq<Byte>)
    requires Continues(t)
    ensures Fold(acc, t) == Digits([acc] + Bits(t))
  {
    if t == [] {
      assert [acc] + Bits(t) == [acc] && [acc][1..] == [];
    } else {
      var k := |t| - 1;
      forall b <- t[..k] ensures 0x80 <= b < 0xc0 { assert b in t; }
      assert t[k] in t;
      FoldDigits(acc, t[..k]);
      DigitsLow([acc] + Bits(t[..k]), t[k] - 0x80);
      assert [acc] + Bits(t) == ([acc] + Bits(t[..k])) + [t[k] - 0x80];
    }
  }

  lemma {:induction false} ContinuesAfter(e: seq<Byte>)
    requires e != []
    ensures Continues(e[1..]) <==> forall k :: 1 <= k < |e| ==> 0x80 <= e[k] < 0xc0
  {
    if Continues(e[1..]) {
      forall k | 1 <= k < |e| ensures 0x80 <= e[k] < 0xc0 {
        assert e[1..][k - 1] in e[1..];
      }
    }
  }

  /** The bits a first byte carries. */
  lemma {:induction false} LeadBits(e: seq<Byte>)
    requires 1 <= |e| <= 6
    ensures var a := e[0] % Room(|e|);
      match |e|
      case 1 => e[0] < 0x80 ==> Skip(e[0]) == 1 && a == e[0]
      case 2 => (0xc0 <= e[0] < 0xe0 <==> Skip(e[0]) == 2) && (Skip(e[0]) == 2 ==> a == e[0] - 0xc0)
      case 3 => (0xe0 <= e[0] < 0xf0 <==> Skip(e[0]) == 3) && (Skip(e[0]) == 3 ==> a == e[0] - 0xe0)
      case 4 => (0xf0 <= e[0] < 0xf8 <==> Skip(e[0]) == 4) && (Skip(e[0]) == 4 ==> a == e[0] - 0xf0)
      case 5 => (0xf8 <= e[0] < 0xfc <==> Skip(e[0]) == 5) && (Skip(e[0]) == 5 ==> a == e[0] - 0xf8)
      case _ => (0xfc <= e[0] < 0xfe <==> Skip(e[0]) == 6) && (Skip(e[0]) == 6 ==> a == e[0] - 0xfc)
  {
  }

  /** The forms in terms of the decoder's reading of the bytes. */
  lemma {:induction false} FormReads(e: seq<Byte>, c: nat)
    ensures Represents(e, c) <==>
      1 <= |e| <= 6 && Continues(e[1..]) && (|e| == 1 ==> e[0] < 0x80) && (|e| > 1 ==> 0xc0 <= e[0] < 0xfe)
      && Skip(e[0]) == |e| && Fold(e[0] % Room(|e|), e[1..]) == c
  {
    hide Digits, Fold, Continues, Bits, Skip;
    if 1 <= |e| <= 6 {
      ContinuesAfter(e);
      LeadBits(e);
      if Continues(e[1..]) { FoldDigits(e[0] % Room(|e|), e[1..]); }
    }
    if |e| == 1 {
      assert e[1..] == [];
      FoldNone(e[0] % Room(1));
    }
  }

  /** The number tells the bits, if it is known how many bytes there are. */
  lemma {:induction false} FoldOnce(a: nat, t: seq<Byte>, b: nat, u: seq<Byte>)
    requires Continues(t) && Continues(u) && |t| == |u| && Fold(a, t) == Fold(b, u)
    ensures a == b && t == u
    decreases |t|
  {
    if t != [] {
      var k := |t| - 1;
      assert t[k] in t && u[k] in u;
      assert Continues(t[..k]) by { forall x <- t[..k] ensures x in t {} }
      assert Continues(u[..k]) by { forall x <- u[..k] ensures x in u {} }
      FoldOnce(a, t[..k], b, u[..k]);
      assert t == t[..k] + [t[k]] && u == u[..k] + [u[k]];
    }
  }

  /** n bytes hold no more than this. */
  lemma {:induction false} FormHolds(e: seq<Byte>, c: nat)
    requires Represents(e, c)
    ensures 1 <= |e| <= 6 && c < Room(|e|) * Power64(|e| - 1) <= 0x8000_0000
  {
    hide Fold, Represents, Continues;
    FormReads(e, c);
    FoldBound(e[0] % Room(|e|), e[1..], Room(|e|));
    PowersOf64();
  }

  /** No fewer bytes hold the character than its encoding has. */
  lemma {:induction false} NoneShorter(c: Wc, n: nat)
    requires InRange(c) && 1 <= n < |Encode(c)|
    ensures c >= Room(n) * Power64(n - 1)
  {
    PowersOf64();
  }

  lemma {:induction false} EncodingForm(c: Wc)
    requires InRange(c)
    ensures Represents(Encode(c), c)
  {
    hide Represents, Fold, Encode;
    var e := Encode(c);
    assert e[0..0 + |e|] == e;
    Value(e, 0, c);
    FormReads(e, c);
  }

  /** ASCII characters are encoded as themselves, and the encoding is the shortest form that holds the
      character. */
  lemma {:induction false} EncodingShortest(e: seq<Byte>, c: Wc)
    requires InRange(c)
    ensures e == Encode(c) <==> Represents(e, c) && forall f :: Represents(f, c) ==> |e| <= |f|
    ensures c < 0x80 ==> Encode(c) == [c]
  {
    hide Represents, Fold, Encode, Continues, Power64;
    var w := Encode(c);
    EncodingForm(c);
    forall f | Represents(f, c) ensures |w| <= |f| {
      FormHolds(f, c);
      if |f| < |w| { NoneShorter(c, |f|); }
    }
    if Represents(e, c) && |e| == |w| { OneForm(e, w, c); }
    if c < 0x80 {
      assert Represents([c], c) by { Ascii(c); }
      OneForm([c], w, c);
    }
  }

  lemma {:induction false} Ascii(c: Byte)
    requires c < 0x80
    ensures Represents([c], c)
  {
  }

  lemma {:induction false} OneForm(e: seq<Byte>, f: seq<Byte>, c: nat)
    requires Represents(e, c) && Represents(f, c) && |e| == |f|
    ensures e == f
  {
    hide Represents, Fold, Continues, Skip;
    FormReads(e, c);
    FormReads(f, c);
    LeadBits(e);
    LeadBits(f);
    FoldOnce(e[0] % Room(|e|), e[1..], f[0] % Room(|f|), f[1..]);
    assert e == [e[0]] + e[1..] && f == [f[0]] + f[1..];
  }

  /** The checking decoder reads every form, the shortest and the longer ones, and nothing else. */
  lemma {:induction false} DecodesForms(s: seq<Byte>, p: nat, r: Wc)
    requires p < |s|
    requires var n, b := Skip(s[p]), s[p];
      r == if 0x80 <= b < 0xc0 || b >= 0xfe || p + n > |s| || !Continues(s[p + 1..p + n]) then INVALID
           else Fold(b % Room(n), s[p + 1..p + n])
    ensures r != INVALID <==> exists q :: p < q <= |s| && Represents(s[p..q], r)
    ensures forall q, c :: p < q <= |s| && Represents(s[p..q], c) ==> c == r
  {
    hide Represents, Fold, Continues;
    forall q, c | p < q <= |s| && Represents(s[p..q], c) ensures c == r && r != INVALID {
      FormReads(s[p..q], c);
      FormHolds(s[p..q], c);
      assert s[p..q][1..] == s[p + 1..q];
    }
    if r != INVALID {
      var n := Skip(s[p]);
      assert s[p..p + n][1..] == s[p + 1..p + n];
      FormReads(s[p..p + n], r);
    }
  }
}
