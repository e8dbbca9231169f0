/** The Basic Encoding Rules: encoding one object, decoding the object at the front of a buffer. */
module Ber {
  import opened Basics

  type Word = n: int | 0 <= n < 0x1_0000_0000

  const WORD: int := 0x1_0000_0000

  datatype Header = Header(cls: nat, constructed: nat, tag: Word) {
    predicate Ok() {
      cls < 4 && constructed < 2
    }
  }

  // ---- Digits -----------------------------------------------------------------------------------------

  /** Tags are written in groups of seven bits, lengths in groups of eight. */
  datatype Base = Seven | Eight {
    function Size(): nat { if Seven? then 128 else 256 }
    function High(n: nat): nat { if Seven? then n / 128 else n / 256 }
    function Low(n: nat): (r: Byte) ensures r < Size() { if Seven? then n % 128 else n % 256 }
    function Join(n: nat, d: nat): nat { if Seven? then 128 * n + d else 256 * n + d }
  }

  /** n without its lowest k groups. */
  function Shift(n: nat, base: Base, k: nat): nat {
    if k == 0 then n else Shift(base.High(n), base, k - 1)
  }

  /** The digits of n, the most significant first; 0 has none. */
  function Digits(n: nat, base: Base): (d: seq<Byte>)
    ensures forall k :: 0 <= k < |d| ==> d[k] < base.Size()
    ensures n > 0 ==> d != []
  {
    if n == 0 then [] else Digits(base.High(n), base) + [base.Low(n)]
  }

  /** The number with these digits after those of acc. */
  function Number(acc: nat, d: seq<Byte>, base: Base): nat {
    if d == [] then acc else base.Join(Number(acc, d[..|d| - 1], base), d[|d| - 1])
  }

  lemma {:induction false} NumberOfDigits(n: nat, base: Base)
    ensures Number(0, Digits(n, base), base) == n
  {
    if n > 0 {
      NumberOfDigits(base.High(n), base);
      var d := Digits(n, base);
      assert d[..|d| - 1] == Digits(base.High(n), base);
    }
  }

  /** A digit, found by shifting. */
  lemma {:induction false} DigitAt(n: nat, base: Base, k: nat)
    requires k < |Digits(n, base)|
    ensures Digits(n, base)[|Digits(n, base)| - 1 - k] == base.Low(Shift(n, base, k))
    decreases n
  {
    if k > 0 { DigitAt(base.High(n), base, k - 1); }
  }

  /** How many digits there are, counted by shifting them out. */
  method CountDigits(n: nat, base: Base) returns (c: nat)
    ensures c == |Digits(n, base)|
  {
    var tmp: nat := n;
    c := 0;
    while tmp != 0
      invariant c + |Digits(tmp, base)| == |Digits(n, base)|
      decreases tmp
    {
      c := c + 1;
      tmp := base.High(tmp);
    }
  }

  lemma {:induction false} LengthDigits(n: Word)
    ensures |Digits(n, Eight)| <= 4
  {
    var a: nat := n / 256;
    var b: nat := a / 256;
    var c: nat := b / 256;
    assert |Digits(c, Eight)| <= 1 by { assert c / 256 == 0; }
    assert |Digits(b, Eight)| <= 2;
    assert |Digits(a, Eight)| <= 3;
  }

  // ---- The encoding ----------------------------------------------------------------------------------

  /** All digits but the last are marked. */
  function Marked(d: seq<Byte>, mark: nat): (m: seq<Byte>)
    requires forall k :: 0 <= k < |d| ==> d[k] + mark < 256
    ensures |m| == |d|
    ensures forall k :: 0 <= k < |d| ==> m[k] == if k < |d| - 1 then d[k] + mark else d[k]
  {
    if |d| <= 1 then d
    else
      var first: Byte := d[0] + mark;
      [first] + Marked(d[1..], mark)
  }

  function First(h: Header): Byte
    requires h.Ok()
  {
    h.cls * 64 + h.constructed * 32 + (if h.tag < 0x1f then h.tag else 0x1f)
  }

  function TagOctets(tag: Word): seq<Byte> {
    if tag < 0x1f then [] else Marked(Digits(tag, Seven), 0x80)
  }

  function LengthOctets(n: Word): seq<Byte> {
    LengthDigits(n);
    if n < 0x80 then [n] else [0x80 + |Digits(n, Eight)|] + Digits(n, Eight)
  }

  function HeaderOctets(h: Header, n: Word, indefinite: bool): seq<Byte>
    requires h.Ok()
  {
    [First(h)] + TagOctets(h.tag) + (if indefinite then [0x80] else LengthOctets(n))
  }

  /** The whole object: sections 8.1.2 and 8.1.3 of ITU-T X.690. */
  function Encoding(h: Header, data: seq<Byte>, indefinite: bool): seq<Byte>
    requires h.Ok() && |data| < WORD
  {
    HeaderOctets(h, |data|, indefinite) + data + (if indefinite then [0, 0] else [])
  }

  /** silc_ber_encoded_len, in 32-bit arithmetic. */
  method EncodedLen(tag: Word, dataLen: Word, indefinite: bool) returns (n: Word)
    ensures forall h: Header, data: seq<Byte> | h.Ok() && h.tag == tag && |data| == dataLen ::
      n == |Encoding(h, data, indefinite)| % WORD
  {
    var len := 1;
    if tag >= 0x1f {
      var c := CountDigits(tag, Seven);
      len := len + c;
    }
    len := len + 1;
    if !indefinite {
      if dataLen >= 0x80 {
        var c := CountDigits(dataLen, Eight);
        len := len + c;
      }
    } else {
      len := len + 2;
    }
    n := (len + dataLen) % WORD;
  }

  /** The buffer w with d written over it at start. */
  function Written(w: seq<Byte>, start: nat, d: seq<Byte>): seq<Byte>
    requires start + |d| <= |w|
  {
    w[..start] + d + w[start + |d|..]
  }

  lemma {:induction false} WrittenOne(w: seq<Byte>, start: nat, d: seq<Byte>, k: nat)
    requires start + |d| <= |w| && k <= |d|
    ensures |Written(w, start, d[..k])| == |w| && Written(w, start, d[..0]) == w && d[..|d|] == d
    ensures k < |d| ==> Written(w, start, d[..k])[start + k := d[k]] == Written(w, start, d[..k + 1])
  {
  }

  lemma {:induction false} WrittenHere(w: seq<Byte>, start: nat, x: Byte)
    requires start < |w|
    ensures w[start := x] == Written(w, start, [x])
  {
  }

  lemma {:induction false} WrittenTwice(w: seq<Byte>, start: nat, d: seq<Byte>, e: seq<Byte>)
    requires start + |d| + |e| <= |w|
    ensures |Written(w, start, d)| == |w|
    ensures Written(Written(w, start, d), start + |d|, e) == Written(w, start, d + e)
  {
  }

  /** Writes the digits of n at start, most significant first, marking all but the last. */
  method PutDigits(ber: array<Byte>, start: nat, n: nat, base: Base, mark: nat, count: nat) returns (i: nat)
    requires count == |Digits(n, base)| > 0 && base.Size() + mark <= 256 && start + count <= ber.Length
    modifies ber
    ensures i == start + count
    ensures ber[..] == Written(old(ber[..]), start, Marked(Digits(n, base), mark))
  {
    hide Digits, Marked, Shift, Written;
    ghost var d, w := Marked(Digits(n, base), mark), ber[..];
    i := start;
    var c := count;
    WrittenOne(w, start, d, 0);
    while c > 1
      invariant 1 <= c <= count && i == start + (count - c)
      invariant ber[..] == Written(w, start, d[..count - c])
    {
      c := c - 1;
      MarkedDigit(n, base, mark, c);
      WrittenOne(w, start, d, i - start);
      ber[i] := base.Low(Shift(n, base, c)) + mark;
      i := i + 1;
    }
    MarkedDigit(n, base, mark, 0);
    WrittenOne(w, start, d, i - start);
    ber[i] := base.Low(n);
    i := i + 1;
  }

  lemma {:induction false} MarkedDigit(n: nat, base: Base, mark: nat, k: nat)
    requires k < |Digits(n, base)| && base.Size() + mark <= 256
    ensures Marked(Digits(n, base), mark)[|Digits(n, base)| - 1 - k] ==
      if k == 0 then base.Low(n) else base.Low(Shift(n, base, k)) + mark
  {
    hide Digits, Marked;
    DigitAt(n, base, k);
  }

  /** The identifier octets: class, encoding and tag. */
  method PutTag(ber: array<Byte>, h: Header) returns (i: nat)
    requires h.Ok() && 1 + |TagOctets(h.tag)| <= ber.Length
    modifies ber
    ensures i == 1 + |TagOctets(h.tag)|
    ensures ber[..] == Written(old(ber[..]), 0, [First(h)] + TagOctets(h.tag))
  {
    hide Digits, Marked;
    ghost var w := ber[..];
    ber[0] := h.cls * 64 + h.constructed * 32;
    i := 0;
    if h.tag < 0x1f {
      ber[i] := ber[i] + h.tag;
      i := i + 1;
      assert ber[..] == Written(w, 0, [First(h)]);
    } else {
      ber[i] := ber[i] + 0x1f;
      i := i + 1;
      assert ber[..] == Written(w, 0, [First(h)]);
      var c := CountDigits(h.tag, Seven);
      WrittenTwice(w, 0, [First(h)], TagOctets(h.tag));
      i := PutDigits(ber, i, h.tag, Seven, 0x80, c);
    }
  }

  /** The length octets. */
  method PutLength(ber: array<Byte>, start: nat, n: Word) returns (i: nat)
    requires start + |LengthOctets(n)| <= ber.Length
    modifies ber
    ensures i == start + |LengthOctets(n)|
    ensures ber[..] == Written(old(ber[..]), start, LengthOctets(n))
  {
    hide Digits, Marked, Written;
    ghost var w := ber[..];
    i := start;
    LengthDigits(n);
    if n < 0x80 {
      WrittenHere(w, start, n);
      ber[i] := n;
      i := i + 1;
    } else {
      var c := CountDigits(n, Eight);
      WrittenHere(w, start, 0x80 + c);
      ber[i] := 0x80 + c;
      i := i + 1;
      WrittenTwice(w, start, [0x80 + c], Digits(n, Eight));
      assert Marked(Digits(n, Eight), 0) == Digits(n, Eight);
      i := PutDigits(ber, i, n, Eight, 0, c);
    }
  }

  /** memcpy of the data. */
  method PutData(ber: array<Byte>, start: nat, data: seq<Byte>)
    requires start + |data| <= ber.Length
    modifies ber
    ensures ber[..] == Written(old(ber[..]), start, data)
  {
    hide Written;
    ghost var w := ber[..];
    var k := 0;
    WrittenOne(w, start, data, 0);
    while k < |data|
      invariant k <= |data| && ber[..] == Written(w, start, data[..k])
    {
      WrittenOne(w, start, data, k);
      ber[start + k] := data[k];
      k := k + 1;
    }
  }

  lemma {:induction false} HeaderSize(h: Header, n: Word, indefinite: bool)
    requires h.Ok()
    ensures |HeaderOctets(h, n, indefinite)| == 1 + |TagOctets(h.tag)| + (if indefinite then 1 else |LengthOctets(n)|)
  {
  }

  /** silc_ber_encode: writes the encoding at the front of the buffer if its length, as computed, is
      enough. The lengths are to add up below 2 to the power of 32. */
  method Encode(ber: array<Byte>, h: Header, data: seq<Byte>, indefinite: bool) returns (ok: bool)
    requires h.Ok() && |data| < WORD && |Encoding(h, data, indefinite)| < WORD
    modifies ber
    ensures ok <==> ber.Length >= |Encoding(h, data, indefinite)|
    ensures ok ==> ber[..] == Encoding(h, data, indefinite) + old(ber[..])[|Encoding(h, data, indefinite)|..]
    ensures !ok ==> ber[..] == old(ber[..])
  {
    hide First, TagOctets, LengthOctets, Written;
    ghost var w := ber[..];
    var needed := EncodedLen(h.tag, |data|, indefinite);
    if ber.Length < needed { return false; }
    HeaderSize(h, |data|, indefinite);
    ghost var front := [First(h)] + TagOctets(h.tag);
    var i := PutTag(ber, h);
    if !indefinite {
      WrittenTwice(w, 0, front, LengthOctets(|data|));
      i := PutLength(ber, i, |data|);
    } else {
      WrittenTwice(w, 0, front, [0x80]);
      WrittenShort(ber[..], i, [0x80]);
      ber[i] := 0x80;
      i := i + 1;
    }
    ghost var o := HeaderOctets(h, |data|, indefinite);
    WrittenTwice(w, 0, o, data);
    PutData(ber, i, data);
    if indefinite {
      WrittenTwice(w, 0, o + data, [0, 0]);
      WrittenShort(ber[..], i + |data|, [0, 0]);
      ber[i + |data|], ber[i + |data| + 1] := 0, 0;
    }
    WrittenFront(w, Encoding(h, data, indefinite));
    assert !indefinite ==> o + data + [] == o + data;
    ok := true;
  }

  lemma {:induction false} WrittenShort(w: seq<Byte>, start: nat, d: seq<Byte>)
    requires 1 <= |d| <= 2 && start + |d| <= |w|
    ensures Written(w, start, d) == if |d| == 1 then w[start := d[0]] else w[start := d[0]][start + 1 := d[1]]
  {
  }

  lemma {:induction false} WrittenFront(w: seq<Byte>, d: seq<Byte>)
    requires |d| <= |w|
    ensures Written(w, 0, d) == d + w[|d|..]
  {
  }

  // ---- Decoding ------------------------------------------------------------------------------------------

  /** A decoded object: its header, where its data begins and how long they are. */
  datatype Object = Object(h: Header, start: nat, len: nat, indefinite: bool)

  /** The rest of a long tag at i, and the position after it. */
  function TagFrom(ber: seq<Byte>, i: nat, t: Word): (r: Option<(nat, Word)>)
    requires i < |ber|
    ensures r.Some? ==> i < r.value.0 <= |ber|
    decreases |ber| - i
  {
    var t' := (128 * t + ber[i] % 128) % WORD;
    if ber[i] < 0x80 then Some((i + 1, t'))
    else if i + 1 >= |ber| then None
    else TagFrom(ber, i + 1, t')
  }

  /** c more length octets at i. There has to be an octet after the last one. */
  function LengthFrom(ber: seq<Byte>, i: nat, c: nat, n: Word): (r: Option<(nat, Word)>)
    requires i < |ber|
    ensures r.Some? ==> i <= r.value.0 < |ber|
    decreases c
  {
    if c == 0 then Some((i, n))
    else if i + 1 >= |ber| then None
    else LengthFrom(ber, i + 1, c - 1, (256 * n + ber[i]) % WORD)
  }

  /** The first end of contents at an even distance from c, or the end of the buffer. */
  function EndFrom(ber: seq<Byte>, c: nat): (e: nat)
    requires c <= |ber|
    ensures c <= e <= |ber|
    decreases |ber| - c
  {
    if c + 1 >= |ber| || (ber[c] == 0 && ber[c + 1] == 0) then c else EndFrom(ber, c + 2)
  }

  function TagOf(ber: seq<Byte>): (r: Option<(nat, Word)>)
    ensures r.Some? ==> 0 < r.value.0 <= |ber|
  {
    if ber == [] then None
    else if ber[0] % 32 < 0x1f then Some((1, ber[0] % 32))
    else if |ber| == 1 then None
    else TagFrom(ber, 1, 0)
  }

  /** The length at i: where the data begin, how long they are, and whether that was found by search. */
  function LengthOf(ber: seq<Byte>, i: nat): (r: Option<(nat, Word, bool)>)
    requires i < |ber| < WORD
    ensures r.Some? ==> i < r.value.0 <= |ber|
  {
    var b := ber[i];
    if b < 0x80 then Some((i + 1, b, false))
    else if b > 0x80 then
      if i + 1 >= |ber| then None
      else
        match LengthFrom(ber, i + 1, b - 0x80, 0)
        case None => None
        case Some((j, n)) => Some((j, n, false))
    else
      var e := EndFrom(ber, i + 1);
      if e >= |ber| then None else Some((i + 1, e - (i + 1), true))
  }

  function DecodeOf(ber: seq<Byte>): (r: Option<Object>)
    requires |ber| < WORD
    ensures r.Some? ==> r.value.h.Ok() && 0 < r.value.start && r.value.start + r.value.len <= |ber|
  {
    match TagOf(ber)
    case None => None
    case Some((i, tag)) =>
      if i >= |ber| then None
      else
        match LengthOf(ber, i)
        case None => None
        case Some((j, n, indefinite)) =>
          if n > |ber| - j then None
          else Some(Object(Header(ber[0] / 64, ber[0] / 32 % 2, tag), j, n, indefinite))
  }

  lemma {:induction false} TagNext(ber: seq<Byte>, i: nat, t: Word)
    requires i < |ber|
    ensures var t' := (128 * t + ber[i] % 128) % WORD;
      TagFrom(ber, i, t) ==
        if ber[i] < 0x80 then Some((i + 1, t')) else if i + 1 >= |ber| then None else TagFrom(ber, i + 1, t')
  {
  }

  lemma {:induction false} LengthNext(ber: seq<Byte>, i: nat, c: nat, n: Word)
    requires i < |ber|
    ensures LengthFrom(ber, i, c, n) ==
      if c == 0 then Some((i, n))
      else if i + 1 >= |ber| then None else LengthFrom(ber, i + 1, c - 1, (256 * n + ber[i]) % WORD)
  {
  }

  /** silc_ber_decode. */
  method Decode(ber: seq<Byte>) returns (r: Option<Object>)
    requires |ber| < WORD
    ensures r == DecodeOf(ber)
  {
    hide TagFrom, LengthFrom;
    if |ber| == 0 { return None; }
    var cls, constructed := ber[0] / 64, ber[0] / 32 % 2;
    var i: nat, t: Word := 1, ber[0] % 32;
    if t >= 0x1f {
      if i >= |ber| { return None; }
      t := 0;
      while ber[i] >= 0x80
        invariant i < |ber| && TagFrom(ber, i, t) == TagFrom(ber, 1, 0)
        decreases |ber| - i
      {
        TagNext(ber, i, t);
        t := (128 * t + ber[i] % 128) % WORD;
        i := i + 1;
        if i >= |ber| { return None; }
      }
      TagNext(ber, i, t);
      t := (128 * t + ber[i] % 128) % WORD;
      i := i + 1;
    }
    assert TagOf(ber) == Some((i, t));
    if i >= |ber| { return None; }
    ghost var at := i;
    var n: Word, indefinite := ber[i], false;
    i := i + 1;
    if n >= 0x80 {
      var c: nat := n % 128;
      if c != 0 {
        if i >= |ber| { return None; }
        n := 0;
        while c > 0
          invariant i < |ber| && LengthFrom(ber, i, c, n) == LengthFrom(ber, at + 1, ber[at] - 0x80, 0)
          decreases c
        {
          LengthNext(ber, i, c, n);
          n := (256 * n + ber[i]) % WORD;
          i := i + 1;
          if i >= |ber| { return None; }
          c := c - 1;
        }
        LengthNext(ber, i, 0, n);
      } else {
        indefinite := true;
        c := i;
        while c + 1 < |ber|
          invariant i <= c <= |ber| && EndFrom(ber, c) == EndFrom(ber, i)
        {
          if ber[c] == 0 && ber[c + 1] == 0 { break; }
          c := c + 2;
        }
        if c >= |ber| { return None; }
        n := c - i;
      }
    }
    assert LengthOf(ber, at) == Some((i, n, indefinite));
    if n > |ber| - i { return None; }
    r := Some(Object(Header(cls, constructed, t), i, n, indefinite));
  }

  // ---- Decoding what was encoded -------------------------------------------------------------------

  lemma {:induction false} NumberFirst(acc: nat, d: seq<Byte>, base: Base)
    requires d != []
    ensures Number(acc, d, base) == Number(base.Join(acc, d[0]), d[1..], base)
    decreases |d|
  {
    if |d| > 1 {
      NumberFirst(acc, d[..|d| - 1], base);
      assert d[1..][..|d| - 2] == d[..|d| - 1][1..];
    } else {
      assert d[..0] == [] && d[1..] == [];
    }
  }

  lemma {:induction false} NumberGrows(acc: nat, d: seq<Byte>, base: Base)
    ensures acc <= Number(acc, d, base)
  {
    if d != [] { NumberGrows(acc, d[..|d| - 1], base); }
  }

  lemma {:induction false} MarkedRest(d: seq<Byte>, mark: nat)
    requires |d| > 1 && forall k :: 0 <= k < |d| ==> d[k] + mark < 256
    ensures Marked(d, mark)[1..] == Marked(d[1..], mark)
  {
  }

  lemma {:induction false} NumberNone(acc: nat, d: seq<Byte>, base: Base)
    requires d == []
    ensures Number(acc, d, base) == acc
  {
  }

  /** A marked number reads back. */
  lemma {:induction false} TagReads(ber: seq<Byte>, i: nat, d: seq<Byte>, t: Word)
    requires d != [] && (forall k :: 0 <= k < |d| ==> d[k] < 128) && Number(t, d, Seven) < WORD
    requires i + |d| <= |ber| && ber[i..i + |d|] == Marked(d, 0x80)
    ensures TagFrom(ber, i, t) == Some((i + |d|, Number(t, d, Seven)))
    decreases |d|
  {
    hide Number, Marked, TagFrom;
    TagNext(ber, i, t);
    NumberFirst(t, d, Seven);
    NumberGrows(Seven.Join(t, d[0]), d[1..], Seven);
    assert ber[i] == ber[i..i + |d|][0];
    if |d| > 1 {
      MarkedRest(d, 0x80);
      assert ber[i + 1..i + |d|] == ber[i..i + |d|][1..];
      TagReads(ber, i + 1, d[1..], Seven.Join(t, d[0]));
    } else {
      NumberNone(Seven.Join(t, d[0]), d[1..], Seven);
    }
  }

  lemma {:induction false} LengthReads(ber: seq<Byte>, i: nat, d: seq<Byte>, n: Word)
    requires Number(n, d, Eight) < WORD && i + |d| < |ber| && ber[i..i + |d|] == d
    ensures LengthFrom(ber, i, |d|, n) == Some((i + |d|, Number(n, d, Eight)))
    decreases |d|
  {
    hide Number, LengthFrom;
    LengthNext(ber, i, |d|, n);
    if d == [] {
      NumberNone(n, d, Eight);
    } else {
      NumberFirst(n, d, Eight);
      NumberGrows(Eight.Join(n, d[0]), d[1..], Eight);
      assert ber[i] == ber[i..i + |d|][0];
      assert ber[i + 1..i + |d|] == ber[i..i + |d|][1..];
      LengthReads(ber, i + 1, d[1..], Eight.Join(n, d[0]));
    }
  }

  lemma {:induction false} FirstReads(h: Header)
    requires h.Ok()
    ensures First(h) / 64 == h.cls && First(h) / 32 % 2 == h.constructed
    ensures First(h) % 32 == if h.tag < 0x1f then h.tag else 0x1f
  {
  }

  lemma {:induction false} TagReadsBack(h: Header, ber: seq<Byte>)
    requires h.Ok() && |ber| > 1 + |TagOctets(h.tag)| && ber[..1 + |TagOctets(h.tag)|] == [First(h)] + TagOctets(h.tag)
    ensures TagOf(ber) == Some((1 + |TagOctets(h.tag)|, h.tag))
    ensures ber[0] / 64 == h.cls && ber[0] / 32 % 2 == h.constructed
  {
    hide TagFrom, First, Digits, Marked, Number;
    FirstReads(h);
    var e := ber[..1 + |TagOctets(h.tag)|];
    assert ber[0] == e[0];
    if h.tag >= 0x1f {
      var d := Digits(h.tag, Seven);
      NumberOfDigits(h.tag, Seven);
      assert ber[1..1 + |d|] == e[1..] == Marked(d, 0x80);
      TagReads(ber, 1, d, 0);
    }
  }

  lemma {:induction false} LengthReadsBack(n: Word, ber: seq<Byte>, i: nat)
    requires i + |LengthOctets(n)| + n <= |ber| < WORD && ber[i..i + |LengthOctets(n)|] == LengthOctets(n)
    ensures LengthOf(ber, i) == Some((i + |LengthOctets(n)|, n, false))
  {
    hide LengthFrom, Digits, Number;
    LengthDigits(n);
    var e := ber[i..i + |LengthOctets(n)|];
    assert ber[i] == e[0];
    if n >= 0x80 {
      var d := Digits(n, Eight);
      NumberOfDigits(n, Eight);
      assert ber[i + 1..i + 1 + |d|] == e[1..] == d;
      LengthReads(ber, i + 1, d, 0);
    }
  }

  /** Decoding a definite-length encoding, whatever follows it, gives back its header, and its data are
      the data encoded. */
  lemma {:induction false} RoundTrip(h: Header, data: seq<Byte>, suffix: seq<Byte>)
    requires h.Ok() && |data| < WORD && |Encoding(h, data, false) + suffix| < WORD
    ensures var ber, start := Encoding(h, data, false) + suffix, |HeaderOctets(h, |data|, false)|;
      && DecodeOf(ber) == Some(Object(h, start, |data|, false))
      && start + |data| == |Encoding(h, data, false)| && ber[start..start + |data|] == data
  {
    hide First, TagOctets, LengthOctets, TagOf, LengthOf;
    var ber, i, l := Encoding(h, data, false) + suffix, 1 + |TagOctets(h.tag)|, LengthOctets(|data|);
    HeaderSize(h, |data|, false);
    assert ber == [First(h)] + TagOctets(h.tag) + l + data + suffix;
    assert ber[..i] == [First(h)] + TagOctets(h.tag);
    assert ber[i..i + |l|] == l;
    LengthSome(|data|);
    TagReadsBack(h, ber);
    LengthReadsBack(|data|, ber, i);
  }

  lemma {:induction false} LengthSome(n: Word)
    ensures LengthOctets(n) != []
  {
  }

  /** One encoding followed by anything can be read in one way only. */
  lemma {:induction false} SplitsOneWay(h: Header, data: seq<Byte>, suffix: seq<Byte>, h': Header, data': seq<Byte>,
                                        suffix': seq<Byte>)
    requires h.Ok() && h'.Ok() && |data| < WORD && |data'| < WORD
    requires Encoding(h, data, false) + suffix == Encoding(h', data', false) + suffix'
    requires |Encoding(h, data, false) + suffix| < WORD
    ensures h == h' && data == data' && suffix == suffix'
  {
    hide Encoding, DecodeOf, HeaderOctets;
    RoundTrip(h, data, suffix);
    RoundTrip(h', data', suffix');
    var e, e' := Encoding(h, data, false), Encoding(h', data', false);
    assert suffix == (e + suffix)[|e|..] && suffix' == (e' + suffix')[|e'|..];
  }

  // ---- The indefinite form -----------------------------------------------------------------------------

  /** Two zero octets at offset 2k of the data. */
  predicate ZerosAt(data: seq<Byte>, k: nat) {
    2 * k + 1 < |data| && data[2 * k] == 0 && data[2 * k + 1] == 0
  }

  ghost predicate EarlyEnd(data: seq<Byte>) {
    exists k: nat :: ZerosAt(data, k)
  }

  /** The scan from an even offset finds the end of the data. */
  lemma {:induction false} EndAt(ber: seq<Byte>, start: nat, data: seq<Byte>, k: nat)
    requires start + |data| + 2 == |ber| && ber[start..] == data + [0, 0] && 2 * k <= |data| + 1
    ensures EndFrom(ber, start + 2 * k) == start + |data| <==>
      |data| % 2 == 0 && forall j: nat :: k <= j ==> !ZerosAt(data, j)
    decreases |data| + 2 - 2 * k
  {
    var c := start + 2 * k;
    assert ber[c] == ber[start..][2 * k];
    if c + 1 < |ber| {
      assert ber[c + 1] == ber[start..][2 * k + 1];
      assert 2 * k + 1 < |data| ==> (ZerosAt(data, k) <==> ber[c] == 0 && ber[c + 1] == 0);
      if !(ber[c] == 0 && ber[c + 1] == 0) { EndAt(ber, start, data, k + 1); }
    }
  }

  /** On a buffer that is exactly an indefinite-length encoding, decoding gives back the header and the
      data if and only if the data have even length and no two zero octets at an even offset. */
  lemma {:induction false} Indefinite(h: Header, data: seq<Byte>)
    requires h.Ok() && |data| < WORD && |Encoding(h, data, true)| < WORD
    ensures var start := |HeaderOctets(h, |data|, true)|;
      DecodeOf(Encoding(h, data, true)) == Some(Object(h, start, |data|, true))
      <==> |data| % 2 == 0 && !EarlyEnd(data)
  {
    hide First, TagOctets, TagOf, EndFrom, ZerosAt;
    var ber, i := Encoding(h, data, true), 1 + |TagOctets(h.tag)|;
    HeaderSize(h, |data|, true);
    assert ber == [First(h)] + TagOctets(h.tag) + [0x80] + data + [0, 0];
    assert ber[..i] == [First(h)] + TagOctets(h.tag) && ber[i] == 0x80;
    TagReadsBack(h, ber);
    assert ber[i + 1..] == data + [0, 0];
    EndAt(ber, i + 1, data, 0);
  }
}
