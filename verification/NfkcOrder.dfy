/** Canonical ordering of combining marks: the Canonical Ordering Algorithm of section 3.11 of the
    Unicode Standard, for any assignment of combining classes. */
module NfkcOrder {
  import opened Utf8

  /** The combining class of each character; 0 for starters. */
  type Classes = Wc -> nat

  // ---- What canonical ordering is ---------------------------------------------------------------------

  /** The starters of s and its marks of class c, in order. */
  function Proj(cc: Classes, s: seq<Wc>, c: nat): seq<Wc> {
    if s == [] then [] else (if cc(s[0]) == 0 || cc(s[0]) == c then [s[0]] else []) + Proj(cc, s[1..], c)
  }

  /** t differs from s only in the order of marks of different classes between the same starters. */
  ghost predicate Kept(cc: Classes, s: seq<Wc>, t: seq<Wc>) {
    forall c: nat :: Proj(cc, s, c) == Proj(cc, t, c)
  }

  /** Between starters, classes do not decrease. */
  predicate Ordered(cc: Classes, s: seq<Wc>) {
    forall i :: 0 < i < |s| ==> cc(s[i]) == 0 || cc(s[i - 1]) <= cc(s[i])
  }

  /** t plus x, moved left past the marks of higher classes at the end of t. */
  function Insert(cc: Classes, t: seq<Wc>, x: Wc): (r: seq<Wc>)
    ensures |r| == |t| + 1
  {
    if t == [] || cc(x) == 0 || cc(t[|t| - 1]) <= cc(x) then t + [x]
    else Insert(cc, t[..|t| - 1], x) + [t[|t| - 1]]
  }

  function Order(cc: Classes, s: seq<Wc>): (r: seq<Wc>)
    ensures |r| == |s|
  {
    if s == [] then [] else Insert(cc, Order(cc, s[..|s| - 1]), s[|s| - 1])
  }

  // ---- Projections ---------------------------------------------------------------------------------------

  lemma {:induction false} ProjCons(cc: Classes, x: Wc, s: seq<Wc>, c: nat)
    ensures Proj(cc, [x] + s, c) == (if cc(x) == 0 || cc(x) == c then [x] else []) + Proj(cc, s, c)
  {
    assert ([x] + s)[1..] == s;
  }

  lemma {:induction false} ProjNone(cc: Classes, c: nat)
    ensures Proj(cc, [], c) == []
  {
  }

  lemma {:induction false} ProjJoin(cc: Classes, s: seq<Wc>, t: seq<Wc>, c: nat)
    ensures Proj(cc, s + t, c) == Proj(cc, s, c) + Proj(cc, t, c)
  {
    hide Proj;
    if s == [] {
      assert s + t == t;
      ProjNone(cc, c);
    } else {
      ProjJoin(cc, s[1..], t, c);
      ProjCons(cc, s[0], s[1..] + t, c);
      ProjCons(cc, s[0], s[1..], c);
      assert s + t == [s[0]] + (s[1..] + t) && s == [s[0]] + s[1..];
    }
  }

  lemma {:induction false} KeptJoin(cc: Classes, s: seq<Wc>, s': seq<Wc>, t: seq<Wc>, t': seq<Wc>)
    requires Kept(cc, s, s') && Kept(cc, t, t')
    ensures Kept(cc, s + t, s' + t')
  {
    forall c: nat ensures Proj(cc, s + t, c) == Proj(cc, s' + t', c) {
      ProjJoin(cc, s, t, c);
      ProjJoin(cc, s', t', c);
    }
  }

  /** Swapping two adjacent marks of different classes is a legal change. */
  lemma {:induction false} SwapKept(cc: Classes, x: Wc, y: Wc)
    requires cc(x) != 0 && cc(y) != 0 && cc(x) != cc(y)
    ensures Kept(cc, [x, y], [y, x])
  {
    hide Proj;
    forall c: nat ensures Proj(cc, [x, y], c) == Proj(cc, [y, x], c) {
      ProjTwo(cc, x, y, c);
      ProjTwo(cc, y, x, c);
    }
  }

  lemma {:induction false} ProjTwo(cc: Classes, x: Wc, y: Wc, c: nat)
    requires cc(x) != 0 && cc(y) != 0 && cc(x) != cc(y)
    ensures Proj(cc, [x, y], c) == if cc(x) == c then [x] else if cc(y) == c then [y] else []
  {
    assert [x, y][1..] == [y] && [y][1..] == [];
    assert Proj(cc, [y], c) == if cc(y) == c then [y] else [];
  }

  // ---- Ordering by insertion ---------------------------------------------------------------------------

  lemma {:induction false} InsertKept(cc: Classes, t: seq<Wc>, x: Wc)
    ensures Kept(cc, t + [x], Insert(cc, t, x))
    decreases |t|
  {
    hide Proj;
    if !(t == [] || cc(x) == 0 || cc(t[|t| - 1]) <= cc(x)) {
      var n := |t| - 1;
      InsertKept(cc, t[..n], x);
      KeptJoin(cc, t[..n] + [x], Insert(cc, t[..n], x), [t[n]], [t[n]]);
      SwapKept(cc, t[n], x);
      KeptJoin(cc, t[..n], t[..n], [t[n], x], [x, t[n]]);
      assert t + [x] == t[..n] + [t[n], x];
      assert t[..n] + [x] + [t[n]] == t[..n] + [x, t[n]];
    }
  }

  lemma {:induction false} InsertOrdered(cc: Classes, t: seq<Wc>, x: Wc)
    requires Ordered(cc, t)
    ensures Ordered(cc, Insert(cc, t, x))
    ensures var l := Insert(cc, t, x)[|t|]; l == x || (|t| > 0 && l == t[|t| - 1])
    decreases |t|
  {
    if !(t == [] || cc(x) == 0 || cc(t[|t| - 1]) <= cc(x)) {
      InsertOrdered(cc, t[..|t| - 1], x);
    }
  }

  /** Starters stay where they are, and the characters are the same. */
  lemma {:induction false} InsertStays(cc: Classes, t: seq<Wc>, x: Wc)
    ensures var r := Insert(cc, t, x);
      && multiset(r) == multiset(t + [x])
      && forall i :: 0 <= i <= |t| ==>
           (cc(r[i]) == 0 <==> cc((t + [x])[i]) == 0) && (cc(r[i]) == 0 ==> r[i] == (t + [x])[i])
  {
    hide Insert;
    InsertSame(cc, t, x);
    InsertPlaces(cc, t, x);
  }

  lemma {:induction false} InsertSame(cc: Classes, t: seq<Wc>, x: Wc)
    ensures multiset(Insert(cc, t, x)) == multiset(t + [x])
    decreases |t|
  {
    if !(t == [] || cc(x) == 0 || cc(t[|t| - 1]) <= cc(x)) {
      var n := |t| - 1;
      InsertSame(cc, t[..n], x);
      assert t == t[..n] + [t[n]];
      assert multiset(t + [x]) == multiset(t[..n] + [x]) + multiset{t[n]};
    }
  }

  lemma {:induction false} InsertPlaces(cc: Classes, t: seq<Wc>, x: Wc)
    ensures var r := Insert(cc, t, x);
      forall i :: 0 <= i <= |t| ==>
        (cc(r[i]) == 0 <==> cc((t + [x])[i]) == 0) && (cc(r[i]) == 0 ==> r[i] == (t + [x])[i])
    decreases |t|
  {
    if !(t == [] || cc(x) == 0 || cc(t[|t| - 1]) <= cc(x)) { InsertPlaces(cc, t[..|t| - 1], x); }
  }

  /** Ordering sorts the marks between starters by class, by legal changes only: marks of the same
      class keep their order. */
  lemma {:induction false} OrderSorts(cc: Classes, s: seq<Wc>)
    ensures Ordered(cc, Order(cc, s)) && Kept(cc, s, Order(cc, s))
    decreases |s|
  {
    hide Proj, Insert;
    if s != [] {
      var n := |s| - 1;
      var t := Order(cc, s[..n]);
      OrderSorts(cc, s[..n]);
      InsertKept(cc, t, s[n]);
      InsertOrdered(cc, t, s[n]);
      KeptJoin(cc, s[..n], t, [s[n]], [s[n]]);
      assert s == s[..n] + [s[n]];
    }
  }

  /** Ordering permutes s and leaves starters in place. */
  lemma {:induction false} OrderStays(cc: Classes, s: seq<Wc>)
    ensures var r := Order(cc, s);
      && multiset(r) == multiset(s)
      && forall i :: 0 <= i < |s| ==> (cc(r[i]) == 0 <==> cc(s[i]) == 0) && (cc(r[i]) == 0 ==> r[i] == s[i])
    decreases |s|
  {
    hide Insert;
    if s != [] {
      var n := |s| - 1;
      OrderStays(cc, s[..n]);
      InsertStays(cc, Order(cc, s[..n]), s[n]);
      assert multiset(s) == multiset(s[..n]) + multiset{s[n]} by { assert s == s[..n] + [s[n]]; }
    }
  }

  // ---- The result is unique -----------------------------------------------------------------------------

  /** Before its first starter, an ordered string has no mark of a class lower than its first. */
  lemma {:induction false} NoLowerFirst(cc: Classes, u: seq<Wc>, c: nat)
    requires Ordered(cc, u) && u != [] && 0 < c < cc(u[0])
    ensures Proj(cc, u, c) == [] || cc(Proj(cc, u, c)[0]) == 0
    decreases |u|
  {
    if |u| > 1 {
      var v := u[1..];
      assert v[0] == u[1];
      if cc(v[0]) != 0 { NoLowerFirst(cc, v, c); }
    }
  }

  lemma {:induction false} SameFirst(cc: Classes, t: seq<Wc>, u: seq<Wc>)
    requires Ordered(cc, t) && Ordered(cc, u) && Kept(cc, t, u) && t != []
    ensures u != [] && t[0] == u[0]
  {
    var a := t[0];
    assert Proj(cc, t, cc(a)) == Proj(cc, u, cc(a));
    assert Proj(cc, t, cc(a))[0] == a;
    var b := u[0];
    assert Proj(cc, t, cc(b)) == Proj(cc, u, cc(b));
    assert Proj(cc, u, cc(b))[0] == b;
    if 0 < cc(a) < cc(b) { NoLowerFirst(cc, u, cc(a)); }
    if 0 < cc(b) < cc(a) { NoLowerFirst(cc, t, cc(b)); }
  }

  lemma {:induction false} FirstKept(cc: Classes, s: seq<Wc>)
    requires s != []
    ensures Proj(cc, s, cc(s[0])) != []
  {
  }

  lemma {:induction false} ProjTail(cc: Classes, s: seq<Wc>, c: nat)
    requires s != []
    ensures Proj(cc, s[1..], c) == if cc(s[0]) == 0 || cc(s[0]) == c then Proj(cc, s, c)[1..] else Proj(cc, s, c)
  {
  }

  /** Only one ordered string can be reached by legal changes. */
  lemma {:induction false} OneOrder(cc: Classes, t: seq<Wc>, u: seq<Wc>)
    requires Ordered(cc, t) && Ordered(cc, u) && Kept(cc, t, u)
    ensures t == u
    decreases |t|
  {
    if t == [] {
      if u != [] { FirstKept(cc, u); }
    } else {
      SameFirst(cc, t, u);
      forall c: nat ensures Proj(cc, t[1..], c) == Proj(cc, u[1..], c) {
        ProjTail(cc, t, c);
        ProjTail(cc, u, c);
      }
      OneOrder(cc, t[1..], u[1..]);
      assert t == [t[0]] + t[1..] && u == [u[0]] + u[1..];
    }
  }

  /** Strings that differ by legal changes only are ordered alike. */
  lemma {:induction false} SameOrder(cc: Classes, s: seq<Wc>, t: seq<Wc>)
    requires Kept(cc, s, t)
    ensures Order(cc, s) == Order(cc, t)
  {
    hide Proj, Order;
    OrderSorts(cc, s);
    OrderSorts(cc, t);
    OneOrder(cc, Order(cc, s), Order(cc, t));
  }

  /** Whatever is ordered and reached from s by legal changes is the ordering of s. */
  lemma {:induction false} OrderUnique(cc: Classes, s: seq<Wc>, t: seq<Wc>)
    requires Ordered(cc, t) && Kept(cc, s, t)
    ensures t == Order(cc, s)
  {
    hide Proj, Order;
    OrderSorts(cc, s);
    OneOrder(cc, t, Order(cc, s));
  }

  lemma {:induction false} OrderAgain(cc: Classes, s: seq<Wc>)
    ensures Order(cc, Order(cc, s)) == Order(cc, s)
  {
    hide Proj, Order;
    OrderSorts(cc, s);
    OrderUnique(cc, Order(cc, s), Order(cc, s));
  }

  // ---- In place --------------------------------------------------------------------------------------------

  /** Between u and v, the character x among the characters t, before the one at j. */
  function Slid(u: seq<Wc>, t: seq<Wc>, j: nat, x: Wc, v: seq<Wc>): (r: seq<Wc>)
    requires j <= |t|
    ensures |r| == |u| + |t| + 1 + |v|
  {
    u + t[..j] + [x] + t[j..] + v
  }

  lemma {:induction false} SlidEnds(w: seq<Wc>, lo: nat, m: nat)
    requires lo + m < |w|
    ensures w == Slid(w[..lo], w[lo..lo + m], m, w[lo + m], w[lo + m + 1..])
  {
  }

  lemma {:induction false} SlidOne(u: seq<Wc>, t: seq<Wc>, j: nat, x: Wc, v: seq<Wc>)
    requires 0 < j <= |t|
    ensures var r, k := Slid(u, t, j, x, v), |u| + j;
      r[k - 1] == t[j - 1] && r[k] == x && r[k := t[j - 1]][k - 1 := x] == Slid(u, t, j - 1, x, v)
  {
    assert t[..j] == t[..j - 1] + [t[j - 1]] && t[j - 1..] == [t[j - 1]] + t[j..];
  }

  lemma {:induction false} SlidIn(u: seq<Wc>, t: seq<Wc>, j: nat, x: Wc, v: seq<Wc>)
    requires j <= |t|
    ensures Slid(u, t, j, x, v) == u + (t[..j] + [x] + t[j..]) + v
  {
  }

  lemma {:induction false} Around(p: seq<Wc>, m: seq<Wc>, q: seq<Wc>)
    ensures var w := p + m + q;
      w[..|p|] == p && w[|p|..|p| + |m|] == m && w[|p| + |m|..] == q
  {
  }

  /** Percolates the character at lo + m leftward. */
  method Percolate(a: array<Wc>, lo: nat, m: nat, cc: Classes)
    requires 0 < m && lo + m < a.Length
    requires cc(a[lo + m]) != 0
    modifies a
    ensures var w := old(a[..]); a[..] == w[..lo] + Insert(cc, w[lo..lo + m], w[lo + m]) + w[lo + m + 1..]
  {
    hide Insert, Slid;
    ghost var w := a[..];
    ghost var u, t, x, v := w[..lo], w[lo..lo + m], w[lo + m], w[lo + m + 1..];
    var next := cc(a[lo + m]);
    var j := m;
    SlidEnds(w, lo, m);
    assert t[..m] == t && t[m..] == [];
    while j > 0
      invariant j <= m && a[..] == Slid(u, t, j, x, v)
      invariant Insert(cc, t, x) == Insert(cc, t[..j], x) + t[j..]
    {
      SlidOne(u, t, j, x, v);
      assert a[lo + j - 1] == a[..][lo + j - 1] && a[lo + j] == a[..][lo + j];
      if cc(a[lo + j - 1]) <= next { break; }
      InsertStep(cc, t, x, j);
      ghost var was := a[..];
      a[lo + j], a[lo + j - 1] := a[lo + j - 1], a[lo + j];
      assert a[..] == was[lo + j := t[j - 1]][lo + j - 1 := x];
      j := j - 1;
    }
    InsertHere(cc, t[..j], x);
    SlidIn(u, t, j, x, v);
  }

  lemma {:induction false} InsertStep(cc: Classes, t: seq<Wc>, x: Wc, j: nat)
    requires 0 < j <= |t| && cc(x) != 0 && cc(t[j - 1]) > cc(x)
    ensures Insert(cc, t[..j], x) + t[j..] == Insert(cc, t[..j - 1], x) + t[j - 1..]
  {
    assert t[..j][..j - 1] == t[..j - 1];
    assert [t[j - 1]] + t[j..] == t[j - 1..];
  }

  lemma {:induction false} InsertHere(cc: Classes, t: seq<Wc>, x: Wc)
    requires t == [] || cc(x) == 0 || cc(t[|t| - 1]) <= cc(x)
    ensures Insert(cc, t, x) == t + [x]
  {
  }

  /** The characters of w from lo on replaced by t. */
  function Over(w: seq<Wc>, lo: nat, t: seq<Wc>): (v: seq<Wc>)
    requires lo + |t| <= |w|
    ensures |v| == |w|
  {
    w[..lo] + t + w[lo + |t|..]
  }

  /** One more character of w taken in, as it is or as the part before it has become with it. */
  lemma {:induction false} OverNext(w: seq<Wc>, lo: nat, t: seq<Wc>, r: seq<Wc>)
    requires lo + |t| < |w| && |r| == |t| + 1
    ensures var v, n := Over(w, lo, t), lo + |t|;
      && v[lo..n] == t && v[n] == w[n] && Over(w, lo, t + [w[n]]) == v
      && v[..lo] + r + v[n + 1..] == Over(w, lo, r)
  {
    var n := lo + |t|;
    Around(w[..lo], t, w[n..]);
    assert w[n..] == [w[n]] + w[n + 1..];
  }

  lemma {:induction false} OverAll(w: seq<Wc>, lo: nat, hi: nat, t: seq<Wc>)
    requires lo + |t| == hi <= |w|
    ensures Over(w, lo, t) == w[..lo] + t + w[hi..]
  {
  }

  lemma {:induction false} OverFirst(w: seq<Wc>, lo: nat)
    requires lo < |w|
    ensures Over(w, lo, [w[lo]]) == w
  {
  }

  /** One pass over a[lo..hi]. */
  method Pass(a: array<Wc>, lo: nat, hi: nat, cc: Classes) returns (swap: bool)
    requires lo < hi <= a.Length
    modifies a
    ensures var w := old(a[..]); a[..] == w[..lo] + Order(cc, w[lo..hi]) + w[hi..]
    ensures Ordered(cc, old(a[lo..hi])) ==> !swap
  {
    hide Insert, Order, Ordered, Over;
    ghost var w := a[..];
    ghost var s := w[lo..hi];
    swap := false;
    var last := cc(a[lo]);
    var i := 0;
    OrderOne(cc, s);
    OverFirst(w, lo);
    assert s[..1] == [w[lo]];
    while i < hi - lo - 1
      invariant i < hi - lo && last == cc(Order(cc, s[..i + 1])[i])
      invariant a[..] == Over(w, lo, Order(cc, s[..i + 1]))
      invariant Ordered(cc, s) ==> !swap
    {
      ghost var t, x := Order(cc, s[..i + 1]), s[i + 1];
      OrderNext(cc, s, i + 1);
      OverNext(w, lo, t, Insert(cc, t, x));
      assert a[lo + i + 1] == a[..][lo + i + 1] == x;
      var next := cc(a[lo + i + 1]);
      if next != 0 && last > next {
        Unsorted(cc, s, i + 1);
        Percolate(a, lo, i + 1, cc);
        swap := true;
        InsertLast(cc, t, x);
        next := last;
      } else {
        InsertHere(cc, t, x);
      }
      last := next;
      i := i + 1;
    }
    assert s[..i + 1] == s;
    OverAll(w, lo, hi, Order(cc, s));
  }

  lemma {:induction false} OrderOne(cc: Classes, s: seq<Wc>)
    requires s != []
    ensures Order(cc, s[..1]) == s[..1]
  {
    assert s[..1][..0] == [];
  }

  lemma {:induction false} OrderNext(cc: Classes, s: seq<Wc>, n: nat)
    requires n < |s|
    ensures Order(cc, s[..n + 1]) == Insert(cc, Order(cc, s[..n]), s[n])
  {
    hide Insert;
    assert s[..n + 1][..n] == s[..n];
  }

  lemma {:induction false} InsertLast(cc: Classes, t: seq<Wc>, x: Wc)
    requires t != [] && cc(x) != 0 && cc(t[|t| - 1]) > cc(x)
    ensures Insert(cc, t, x)[|t|] == t[|t| - 1]
  {
  }

  /** A mark out of place shows that the string was not ordered. */
  lemma {:induction false} Unsorted(cc: Classes, s: seq<Wc>, n: nat)
    requires 0 < n < |s| && cc(s[n]) != 0 && cc(Order(cc, s[..n])[n - 1]) > cc(s[n])
    ensures !Ordered(cc, s)
  {
    hide Order, Proj;
    if Ordered(cc, s) {
      assert Ordered(cc, s[..n]);
      OrderUnique(cc, s[..n], s[..n]);
    }
  }

  /** g_unicode_canonical_ordering on a[lo..hi]. */
  method CanonicalOrdering(a: array<Wc>, lo: nat, hi: nat, cc: Classes)
    requires lo < hi <= a.Length
    modifies a
    ensures var w := old(a[..]); a[..] == w[..lo] + Order(cc, w[lo..hi]) + w[hi..]
  {
    hide Order, Proj, Ordered;
    ghost var w := a[..];
    ghost var s := w[lo..hi];
    var swap := true;
    OrderAgain(cc, s);
    OrderSorts(cc, s);
    assert w == w[..lo] + s + w[hi..];
    ghost var now := s;
    while swap
      invariant a[..] == w[..lo] + now + w[hi..] && |now| == |s| && Order(cc, now) == Order(cc, s)
      invariant swap || now == Order(cc, s)
      decreases if Ordered(cc, now) then 0 else 1, swap
    {
      Around(w[..lo], now, w[hi..]);
      swap := Pass(a, lo, hi, cc);
      now := Order(cc, now);
    }
  }
}
