/** UTF-8 for code points of up to 31 bits: the encoder, the checking decoder, the fast decoder and the
    table of character widths. */
module Utf8 {
  import Basics

  type Byte = Basics.Byte
  type Wc = c: int | 0 <= c < 0x1_0000_0000

  const INVALID: Wc := 0xFFFF_FFFF

  /** What the encoder can express. */
  predicate InRange(c: Wc) {
    c < 0x8000_0000
  }

  // ---- The encoding ----------------------------------------------------------------------------------

  /** UTF8_LENGTH. */
  function Width(c: Wc): (n: nat)
    ensures 1 <= n <= 6
  {
    if c < 0x80 then 1 else if c < 0x800 then 2 else if c < 0x10000 then 3
    else if c < 0x200000 then 4 else if c < 0x4000000 then 5 else 6
  }

  /** The marker bits of the first byte of a character n bytes wide. */
  function Marker(n: nat): Byte
    requires 1 <= n <= 6
  {
    if n == 1 then 0 else if n == 2 then 0xc0 else if n == 3 then 0xe0 else if n == 4 then 0xf0
    else if n == 5 then 0xf8 else 0xfc
  }

  /** How many values fit beside the marker. */
  function Room(n: nat): nat
    requires 1 <= n <= 6
  {
    if n == 1 then 0x80 else if n == 2 then 0x20 else if n == 3 then 0x10 else if n == 4 then 8
    else if n == 5 then 4 else 2
  }

  /** c without its lowest 6n bits. */
  function Top(c: nat, n: nat): nat {
    if n == 0 then c else Top(c / 64, n - 1)
  }

  /** The lowest 6n bits of c as continuation bytes. */
  function Tail(c: nat, n: nat): (t: seq<Byte>)
    ensures |t| == n
  {
    if n == 0 then [] else Tail(c / 64, n - 1) + [0x80 + c % 64]
  }

  lemma {:induction false} TopFits(c: Wc)
    requires InRange(c)
    ensures Top(c, Width(c) - 1) < Room(Width(c))
    ensures Width(c) > 1 ==> Marker(Width(c)) + Top(c, Width(c) - 1) >= 0xc0
  {
    var c1 := c / 64;
    var c2 := c1 / 64;
    var c3 := c2 / 64;
    var c4 := c3 / 64;
    var c5 := c4 / 64;
    assert Top(c, 1) == c1;
    assert Top(c, 2) == Top(c1, 1) == c2;
    assert Top(c, 3) == Top(c1, 2) == Top(c2, 1) == c3;
    assert Top(c, 4) == Top(c1, 3) == Top(c2, 2) == Top(c3, 1) == c4;
    assert Top(c, 5) == Top(c1, 4) == Top(c2, 3) == Top(c3, 2) == Top(c4, 1) == c5;
  }

  function Encode(c: Wc): (e: seq<Byte>)
    requires InRange(c)
    ensures |e| == Width(c)
  {
    TopFits(c);
    var n := Width(c);
    [Marker(n) + Top(c, n - 1)] + Tail(c, n - 1)
  }

  predicate Text(cs: seq<Wc>) {
    forall c <- cs :: 0 < c && InRange(c)
  }

  function EncodeAll(cs: seq<Wc>): seq<Byte>
    requires Text(cs)
  {
    if cs == [] then [] else Encode(cs[0]) + EncodeAll(cs[1..])
  }

  /** g_unichar_to_utf8, writing at p: the encoding of c and nothing else. */
  method PutChar(c: Wc, out: array<Byte>, p: nat) returns (len: nat)
    requires InRange(c) && p + Width(c) <= out.Length
    modifies out
    ensures len == Width(c) && out[p..p + len] == Encode(c)
    ensures out[..p] == old(out[..p]) && out[p + len..] == old(out[p + len..])
  {
    hide Tail, Top, Encode;
    len := Width(c);
    var first := Marker(len);
    var i: nat, x: nat := len - 1, c;
    TopFits(c);
    while i > 0
      invariant i < len && Top(x, i) == Top(c, len - 1)
      invariant out[..p + i + 1] == old(out[..p + i + 1]) && out[p + len..] == old(out[p + len..])
      invariant Tail(c, len - 1) == Tail(x, i) + out[p + i + 1..p + len]
    {
      LastByte(x, i);
      ghost var after := out[p + i + 1..p + len];
      out[p + i] := 0x80 + x % 64;
      assert out[p + i..p + len] == [out[p + i]] + after;
      assert Tail(x, i) + after == Tail(x / 64, i - 1) + out[p + i..p + len];
      x, i := x / 64, i - 1;
    }
    CharBytes(c, x);
    out[p] := x + first;
    assert out[p..p + len] == [out[p]] + out[p + 1..p + len];
  }

  lemma {:induction false} LastByte(x: nat, i: nat)
    requires i > 0
    ensures Top(x, i) == Top(x / 64, i - 1) && Tail(x, i) == Tail(x / 64, i - 1) + [0x80 + x % 64]
  {
  }

  lemma {:induction false} CharBytes(c: Wc, x: nat)
    requires InRange(c) && Top(x, 0) == Top(c, Width(c) - 1)
    ensures x + Marker(Width(c)) < 256 && Tail(x, 0) == []
    ensures Encode(c) == [x + Marker(Width(c))] + Tail(c, Width(c) - 1)
  {
    TopFits(c);
  }

  // ---- Decoding ------------------------------------------------------------------------------------------

  /** The table of widths, indexed by first byte. */
  function Skip(b: Byte): (n: nat)
    ensures 1 <= n <= 6
  {
    if b < 0xc0 then 1 else if b < 0xe0 then 2 else if b < 0xf0 then 3 else if b < 0xf8 then 4
    else if b < 0xfc then 5 else if b < 0xfe then 6 else 1
  }

  /** Continuation bytes added to what has been read. */
  function Fold(acc: nat, t: seq<Byte>): nat {
    if t == [] then acc else 64 * Fold(acc, t[..|t| - 1]) + t[|t| - 1] % 64
  }

  lemma {:induction false} FoldTail(c: nat, n: nat)
    ensures Fold(Top(c, n), Tail(c, n)) == c
    decreases n
  {
    if n > 0 {
      var t := Tail(c, n);
      assert t[..n - 1] == Tail(c / 64, n - 1);
      FoldTail(c / 64, n - 1);
    }
  }

  predicate Continues(t: seq<Byte>) {
    forall b <- t :: 0x80 <= b < 0xc0
  }

  lemma {:induction false} TailContinues(c: nat, n: nat)
    ensures Continues(Tail(c, n))
    decreases n
  {
    if n > 0 { TailContinues(c / 64, n - 1); }
  }

  /** What the first byte of an encoding says. */
  lemma {:induction false} FirstByte(c: Wc)
    requires InRange(c)
    ensures var n, b := Width(c), Encode(c)[0];
      Skip(b) == n && b % Room(n) == Top(c, n - 1) && Marker(n) <= b < Marker(n) + Room(n)
      && (c != 0 ==> b != 0)
  {
    TopFits(c);
  }

  /** The bytes from p on begin with the encoding of c. */
  predicate Holds(s: seq<Byte>, p: nat, c: Wc)
    requires InRange(c)
  {
    p + Width(c) <= |s| && s[p..p + Width(c)] == Encode(c)
  }

  /** The value the bytes of one character stand for. */
  lemma {:induction false} Value(s: seq<Byte>, p: nat, c: Wc)
    requires InRange(c) && Holds(s, p, c)
    ensures var n := Width(c);
      && s[p] == Encode(c)[0] && Continues(s[p + 1..p + n])
      && Skip(s[p]) == n && Fold(s[p] % Room(n), s[p + 1..p + n]) == c
      && Marker(n) <= s[p] < Marker(n) + Room(n) && (c != 0 ==> s[p] != 0)
  {
    var n := Width(c);
    FirstByte(c);
    FoldTail(c, n - 1);
    TailContinues(c, n - 1);
    assert s[p] == s[p..p + n][0];
    assert s[p + 1..p + n] == s[p..p + n][1..] == Tail(c, n - 1);
  }

  lemma {:induction false} FoldNone(acc: nat)
    ensures Fold(acc, []) == acc
  {
  }

  lemma {:induction false} FoldMore(acc: nat, s: seq<Byte>, from: nat, i: nat)
    requires from <= i < |s|
    ensures Fold(acc, s[from..i + 1]) == 64 * Fold(acc, s[from..i]) + s[i] % 64
  {
    assert s[from..i + 1][..i - from] == s[from..i];
  }

  /** Any n bytes decode below 2 to the power of 31. */
  lemma {:induction false} FoldBound(acc: nat, t: seq<Byte>, bound: nat)
    requires acc < bound
    ensures Fold(acc, t) < bound * Power64(|t|)
  {
    if t != [] {
      var k := |t| - 1;
      FoldBound(acc, t[..k], bound);
      assert 64 * (bound * Power64(k)) == bound * (64 * Power64(k));
    }
  }

  function Power64(n: nat): nat {
    if n == 0 then 1 else 64 * Power64(n - 1)
  }

  /** A byte of a NUL-terminated string. */
  function Fetch(s: seq<Byte>, k: nat): Byte {
    if k < |s| then s[k] else 0
  }

  /** UTF8_GET: the character with this first byte, or -1 if a continuation byte is missing. */
  method GetTail(s: seq<Byte>, p: nat, len: nat, mask: nat) returns (c: Wc)
    requires p < |s| && 1 <= len <= 6 && mask == Room(len)
    ensures c == if p + len <= |s| && Continues(s[p + 1..p + len])
                 then Fold(s[p] % mask, s[p + 1..p + len]) else INVALID
  {
    hide Fold, Continues;
    var r: nat := s[p] % mask;
    var i := 1;
    NoTail(r, s, p + 1);
    while i < len
      invariant 1 <= i <= len && p + i <= |s| && r == Fold(s[p] % mask, s[p + 1..p + i]) && Continues(s[p + 1..p + i])
    {
      if !(0x80 <= Fetch(s, p + i) < 0xc0) {
        if p + len <= |s| { Broken(s, p + 1, p + i, p + len); }
        return INVALID;
      }
      FoldMore(s[p] % mask, s, p + 1, p + i);
      OneMore(s, p + 1, p + i);
      r := 64 * r + s[p + i] % 64;
      i := i + 1;
    }
    FoldSmall(s[p] % mask, s[p + 1..p + len], len);
    c := r;
  }

  lemma {:induction false} NoTail(acc: nat, s: seq<Byte>, p: nat)
    requires p <= |s|
    ensures s[p..p] == [] && Fold(acc, s[p..p]) == acc && Continues(s[p..p])
  {
  }

  lemma {:induction false} Broken(s: seq<Byte>, from: nat, k: nat, end: nat)
    requires from <= k < end <= |s| && !(0x80 <= s[k] < 0xc0)
    ensures !Continues(s[from..end])
  {
    assert s[from..end][k - from] == s[k] && s[k] in s[from..end];
  }

  lemma {:induction false} OneMore(s: seq<Byte>, from: nat, k: nat)
    requires from <= k < |s| && Continues(s[from..k]) && 0x80 <= s[k] < 0xc0
    ensures Continues(s[from..k + 1])
  {
    assert s[from..k + 1] == s[from..k] + [s[k]];
  }

  lemma {:induction false} FoldSmall(acc: nat, t: seq<Byte>, n: nat)
    requires 1 <= n <= 6 && |t| == n - 1 && acc < Room(n)
    ensures Fold(acc, t) < 0x8000_0000
  {
    FoldBound(acc, t, Room(n));
    PowersOf64();
  }

  /** g_utf8_get_char: the character at p, or -1 if its first byte is not one or a continuation byte
      is missing. */
  method GetChar(s: seq<Byte>, p: nat) returns (c: Wc)
    requires p < |s|
    ensures var n, b := Skip(s[p]), s[p];
      c == if 0x80 <= b < 0xc0 || b >= 0xfe || p + n > |s| || !Continues(s[p + 1..p + n]) then INVALID
           else Fold(b % Room(n), s[p + 1..p + n])
  {
    var b := s[p];
    var len, mask;
    if b < 0x80 { len, mask := 1, 0x80; }
    else if 0xc0 <= b < 0xe0 { len, mask := 2, 0x20; }
    else if 0xe0 <= b < 0xf0 { len, mask := 3, 0x10; }
    else if 0xf0 <= b < 0xf8 { len, mask := 4, 8; }
    else if 0xf8 <= b < 0xfc { len, mask := 5, 4; }
    else if 0xfc <= b < 0xfe { len, mask := 6, 2; }
    else { return INVALID; }
    c := GetTail(s, p, len, mask);
  }

  lemma {:induction false} PowersOf64()
    ensures Power64(0) == 1 && Power64(1) == 64 && Power64(2) == 4096 && Power64(3) == 262144
    ensures Power64(4) == 16777216 && Power64(5) == 1073741824
  {
    assert Power64(1) == 64;
    assert Power64(2) == 4096;
    assert Power64(3) == 262144;
    assert Power64(4) == 16777216;
  }

  // ---- Whole strings ---------------------------------------------------------------------------------------

  /** The byte position after the first k characters. */
  function Offset(cs: seq<Wc>, k: nat): nat
    requires k <= |cs|
  {
    if k == 0 then 0 else Width(cs[0]) + Offset(cs[1..], k - 1)
  }

  lemma {:induction false} OffsetStep(cs: seq<Wc>, k: nat)
    requires k < |cs|
    ensures Offset(cs, k + 1) == Offset(cs, k) + Width(cs[k])
    decreases k
  {
    if k > 0 { OffsetStep(cs[1..], k - 1); }
  }

  /** Character k of an encoded string stands at its offset. */
  lemma {:induction false} CharAt(cs: seq<Wc>, k: nat)
    requires Text(cs) && k < |cs|
    ensures Holds(EncodeAll(cs), Offset(cs, k), cs[k])
    decreases k
  {
    hide Encode, Width;
    var s, e := EncodeAll(cs), Encode(cs[0]);
    if k == 0 {
      assert s[..|e|] == e;
    } else {
      CharAt(cs[1..], k - 1);
      var q, n := Offset(cs[1..], k - 1), Width(cs[k]);
      assert s[|e| + q..|e| + q + n] == EncodeAll(cs[1..])[q..q + n];
    }
  }

  lemma {:induction false} Size(cs: seq<Wc>)
    requires Text(cs)
    ensures |EncodeAll(cs)| == Offset(cs, |cs|)
  {
    if cs != [] { Size(cs[1..]); }
  }

  lemma {:induction false} EncodeMore(cs: seq<Wc>, k: nat)
    requires Text(cs) && k < |cs|
    ensures EncodeAll(cs[..k + 1]) == EncodeAll(cs[..k]) + Encode(cs[k])
    ensures Offset(cs, k) == |EncodeAll(cs[..k])|
    decreases k
  {
    if k == 0 {
      assert cs[..1][1..] == [] && cs[..0] == [];
    } else {
      EncodeMore(cs[1..], k - 1);
      assert cs[..k + 1][1..] == cs[1..][..k] && cs[..k][1..] == cs[1..][..k - 1];
    }
  }

  lemma {:induction false} OffsetsGrow(cs: seq<Wc>, k: nat)
    requires k <= |cs|
    ensures Offset(cs, k) <= Offset(cs, |cs|)
    ensures k < |cs| ==> Offset(cs, k) < Offset(cs, |cs|)
    decreases |cs| - k
  {
    if k < |cs| {
      OffsetStep(cs, k);
      OffsetsGrow(cs, k + 1);
    }
  }

  /** A character of encoded text: the decoder that checks, the one that does not, and the table of
      widths agree on it. */
  lemma {:induction false} CharOfText(cs: seq<Wc>, k: nat)
    requires Text(cs) && k < |cs|
    ensures var s, p, n := EncodeAll(cs), Offset(cs, k), Width(cs[k]);
      && p + n <= |s| && p + n == Offset(cs, k + 1) && s[p] != 0 && !(0x80 <= s[p] < 0xc0) && s[p] < 0xfe
      && Skip(s[p]) == n && Continues(s[p + 1..p + n]) && Fold(s[p] % Room(n), s[p + 1..p + n]) == cs[k]
  {
    CharAt(cs, k);
    Value(EncodeAll(cs), Offset(cs, k), cs[k]);
    OffsetStep(cs, k);
  }

  /** The counting loop of g_utf8_to_ucs4_fast and of g_utf8_strlen: the number of characters. */
  method CountChars(s: seq<Byte>, ghost cs: seq<Wc>) returns (n: nat)
    requires Text(cs) && s == EncodeAll(cs)
    ensures n == |cs|
  {
    hide EncodeAll, Offset;
    var p := 0;
    n := 0;
    Size(cs);
    OffsetStart(cs);
    while Fetch(s, p) != 0
      invariant n <= |cs| && p == Offset(cs, n) && (n == |cs| <==> p == |s|) && p <= |s|
      decreases |cs| - n
    {
      CharOfText(cs, n);
      p, n := p + Skip(s[p]), n + 1;
      OffsetsGrow(cs, n);
    }
    if n < |cs| { CharOfText(cs, n); }
  }

  lemma {:induction false} OffsetStart(cs: seq<Wc>)
    ensures Offset(cs, 0) == 0 && Offset(cs, |cs|) >= 0 && (|cs| > 0 ==> Offset(cs, |cs|) > 0)
  {
    OffsetsGrow(cs, 0);
  }

  /** One character of the fast decoder, which does not look at the marks of continuation bytes. */
  method FastChar(s: seq<Byte>, p: nat) returns (c: Wc, len: nat)
    requires p < |s| && (s[p] < 0x80 || p + (if s[p] < 0xe0 then 2 else if s[p] < 0xf0 then 3 else if s[p] < 0xf8 then 4
                                             else if s[p] < 0xfc then 5 else 6) <= |s|)
    ensures !(0x80 <= s[p] < 0xc0) && s[p] < 0xfe ==>
      len == Skip(s[p]) && p + len <= |s| && c == Fold(s[p] % Room(len), s[p + 1..p + len])
  {
    hide Fold;
    var wc: nat := s[p];
    assert s[p + 1..p + 1] == [];
    FoldNone(wc);
    if wc < 0x80 { return wc, 1; }
    if wc < 0xe0 { len, wc := 2, wc % 0x20; }
    else if wc < 0xf0 { len, wc := 3, wc % 0x10; }
    else if wc < 0xf8 { len, wc := 4, wc % 8; }
    else if wc < 0xfc { len, wc := 5, wc % 4; }
    else { len, wc := 6, wc % 2; }
    ghost var first := wc;
    FoldNone(first);
    var j := 1;
    while j < len
      invariant 1 <= j <= len && wc == Fold(first, s[p + 1..p + j])
    {
      FoldMore(first, s, p + 1, p + j);
      wc := 64 * wc + s[p + j] % 64;
      j := j + 1;
    }
    FoldSmall(first, s[p + 1..p + len], len);
    c := wc;
  }

  /** g_utf8_to_ucs4_fast: the code points of encoded text. */
  method ToUcs4(s: seq<Byte>, ghost cs: seq<Wc>) returns (result: array<Wc>)
    requires Text(cs) && s == EncodeAll(cs)
    ensures fresh(result) && result[..] == cs + [0]
  {
    hide EncodeAll, Offset, Skip, Room, Fold, Continues, Width;
    var n := CountChars(s, cs);
    result := new Wc[n + 1](_ => 0);
    var p, i := 0, 0;
    OffsetStart(cs);
    while i < n
      invariant i <= n && p == Offset(cs, i) && result[..i] == cs[..i]
    {
      CharOfText(cs, i);
      FastWidth(s[p]);
      var len;
      result[i], len := FastChar(s, p);
      p, i := p + len, i + 1;
      assert cs[..i] == cs[..i - 1] + [cs[i - 1]];
    }
    result[i] := 0;
    assert result[..] == result[..n] + [result[n]];
  }

  lemma {:induction false} FastWidth(b: Byte)
    ensures 0x80 <= b && !(0x80 <= b < 0xc0) && b < 0xfe ==>
      Skip(b) == if b < 0xe0 then 2 else if b < 0xf0 then 3 else if b < 0xf8 then 4 else if b < 0xfc then 5 else 6
  {
  }

  /** What a code-point string holds before its terminator, if it has one. */
  function UpToZero(str: seq<Wc>): (cs: seq<Wc>)
    ensures |cs| <= |str| && cs == str[..|cs|] && (|cs| < |str| ==> str[|cs|] == 0)
    ensures forall c <- cs :: c != 0
  {
    if str == [] || str[0] == 0 then [] else [str[0]] + UpToZero(str[1..])
  }

  lemma {:induction false} ZeroAt(str: seq<Wc>, i: nat)
    requires i <= |str| && (forall k :: 0 <= k < i ==> str[k] != 0) && (i < |str| ==> str[i] == 0)
    ensures UpToZero(str) == str[..i]
    decreases i
  {
    if i > 0 {
      assert str == [str[0]] + str[1..];
      ZeroAt(str[1..], i - 1);
    }
  }

  datatype Encoded = Bytes(bytes: array<Byte>) | OutOfRange(index: nat)

  /** g_ucs4_to_utf8: the encoding of the code points before the terminator, or the index of the
      first of them that cannot be encoded. The length computed first is exactly what is written. */
  method ToUtf8(str: seq<Wc>) returns (result: Encoded)
    ensures var cs := UpToZero(str);
      match result
      case Bytes(b) => fresh(b) && Text(cs) && b[..] == EncodeAll(cs) + [0]
      case OutOfRange(i) => i < |cs| && !InRange(cs[i]) && forall k :: 0 <= k < i ==> InRange(cs[k])
  {
    hide EncodeAll, Offset, UpToZero;
    var length, i := 0, 0;
    OffsetStart(str);
    while i < |str| && str[i] != 0
      invariant i <= |str| && (forall k :: 0 <= k < i ==> str[k] != 0 && InRange(str[k])) && length == Offset(str, i)
    {
      if !InRange(str[i]) {
        NotYetZero(str, i);
        return OutOfRange(i);
      }
      OffsetStep(str, i);
      length, i := length + Width(str[i]), i + 1;
    }
    ZeroAt(str, i);
    ghost var cs := UpToZero(str);
    ghost var n := i;
    var bytes := new Byte[length + 1](_ => 0);
    var p := 0;
    i := 0;
    NoText();
    OffsetPrefix(str, n);
    OffsetStart(cs);
    Size(cs);
    assert cs[..0] == [] && bytes[..0] == [];
    while p < length
      invariant i <= n && p == Offset(cs, i) <= length && bytes[..p] == EncodeAll(cs[..i])
    {
      EncodeMore(cs, i);
      OffsetStep(cs, i);
      OffsetsGrow(cs, i + 1);
      ghost var was := bytes[..p];
      var len := PutChar(str[i], bytes, p);
      assert bytes[..p + len] == was + bytes[p..p + len];
      p, i := p + len, i + 1;
    }
    if i < n { OffsetsGrow(cs, i); }
    assert cs[..i] == cs;
    bytes[p] := 0;
    assert bytes[..] == bytes[..p] + [bytes[p]];
    result := Bytes(bytes);
  }

  lemma {:induction false} NotYetZero(str: seq<Wc>, i: nat)
    requires i < |str| && forall k :: 0 <= k <= i ==> str[k] != 0
    ensures i < |UpToZero(str)| && forall k :: 0 <= k <= i ==> UpToZero(str)[k] == str[k]
  {
  }

  lemma {:induction false} NoText()
    ensures EncodeAll([]) == []
  {
  }

  lemma {:induction false} OffsetPrefix(str: seq<Wc>, n: nat)
    requires n <= |str|
    ensures Offset(str, n) == Offset(str[..n], n)
    decreases n
  {
    if n > 0 {
      OffsetPrefix(str[1..], n - 1);
      assert str[..n][1..] == str[1..][..n - 1];
    }
  }

  /** Different texts have different encodings, so a decoder cannot mistake one for the other. */
  lemma {:induction false} EncodingsDiffer(cs: seq<Wc>, ds: seq<Wc>)
    requires Text(cs) && Text(ds) && EncodeAll(cs) == EncodeAll(ds)
    ensures cs == ds
    decreases |cs|
  {
    hide Encode;
    if cs != [] && ds != [] {
      var s := EncodeAll(cs);
      assert Text(cs[1..]) && Text(ds[1..]);
      assert s[..Width(cs[0])] == Encode(cs[0]);
      assert s[..Width(ds[0])] == Encode(ds[0]);
      Value(s, 0, cs[0]);
      Value(s, 0, ds[0]);
      assert s[Width(cs[0])..] == EncodeAll(cs[1..]) == EncodeAll(ds[1..]);
      EncodingsDiffer(cs[1..], ds[1..]);
    }
  }

  /** Encoding and decoding again gives back every code point up to the terminator. */
  method RoundTrip(str: seq<Wc>) returns (back: seq<Wc>)
    requires Text(UpToZero(str))
    ensures back == UpToZero(str) + [0]
  {
    var e := ToUtf8(str);
    match e
    case Bytes(b) =>
      assert b[..b.Length - 1] == b[..][..b.Length - 1];
      var a := ToUcs4(b[..b.Length - 1], UpToZero(str));
      back := a[..];
    case OutOfRange(i) => assert false;
  }
}
