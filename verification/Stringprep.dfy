/** Preparation of internationalized strings: the mapping step, the profile driver, and the loop that
    retries with larger buffers. */
module Stringprep {
  import opened Basics
  import opened Utf8
  import opened NfkcOrder
  import opened NfkcDecompose
  import opened NfkcCompose

  const MAX_MAP_CHARS: nat := 4

  // ---- Tables -----------------------------------------------------------------------------------------

  /** A character, or a range if end is not 0, and what it maps to, padded with zeros. */
  datatype Element = Element(start: Wc, end: Wc, map': seq<Wc>)

  type Table = t: seq<Element> | forall k :: 0 <= k < |t| ==> |t[k].map'| == MAX_MAP_CHARS witness []

  predicate Terminates(e: Element) {
    e.start == 0 && e.end == 0
  }

  predicate Covers(e: Element, c: Wc) {
    e.start <= c <= (if e.end != 0 then e.end else e.start)
  }

  /** The first row from i on that covers c, before the terminator. */
  function FindFrom(table: Table, i: nat, c: Wc): (r: Option<nat>)
    ensures r.Some? ==> i <= r.value < |table| && Covers(table[r.value], c)
    decreases |table| - i
  {
    if i >= |table| || Terminates(table[i]) then None
    else if Covers(table[i], c) then Some(i)
    else FindFrom(table, i + 1, c)
  }

  predicate In(table: Table, c: Wc) {
    FindFrom(table, 0, c).Some?
  }

  /** Some character of s is in the table. */
  ghost predicate Meets(table: Table, s: seq<Wc>) {
    exists k :: 0 <= k < |s| && In(table, s[k])
  }

  /** stringprep_find_character_in_table. */
  method FindChar(table: Table, c: Wc) returns (pos: int)
    ensures pos == match FindFrom(table, 0, c) case Some(i) => i case None => -1
  {
    var i := 0;
    while i < |table| && !Terminates(table[i])
      invariant i <= |table| && FindFrom(table, 0, c) == FindFrom(table, i, c)
    {
      if Covers(table[i], c) { return i; }
      i := i + 1;
    }
    pos := -1;
  }

  /** stringprep_find_string_in_table: the first character that is in the table, and its row. */
  method FindString(ucs4: array<Wc>, len: nat, table: Table) returns (pos: int, row: nat)
    requires len <= ucs4.Length
    ensures -1 <= pos < len
    ensures pos == -1 <==> !Meets(table, ucs4[..len])
    ensures pos >= 0 ==>
      FindFrom(table, 0, ucs4[pos]) == Some(row) && forall k :: 0 <= k < pos ==> !In(table, ucs4[k])
  {
    var j := 0;
    while j < len
      invariant j <= len && forall k :: 0 <= k < j ==> !In(table, ucs4[k])
    {
      var r := FindChar(table, ucs4[j]);
      if r != -1 {
        assert In(table, ucs4[..len][j]);
        return j, r;
      }
      j := j + 1;
    }
    return -1, 0;
  }

  // ---- The mapping step --------------------------------------------------------------------------------

  /** The first n entries of the row's map without trailing zeros. */
  function Trimmed(m: seq<Wc>, n: nat): (r: seq<Wc>)
    requires n <= |m|
    ensures |r| <= n
  {
    if n > 0 && m[n - 1] == 0 then Trimmed(m, n - 1) else m[..n]
  }

  function Output(e: Element): seq<Wc> {
    Trimmed(e.map', |e.map'|)
  }

  /** What a character becomes. */
  function Image(table: Table, c: Wc): (r: seq<Wc>)
    ensures |r| <= MAX_MAP_CHARS
  {
    match FindFrom(table, 0, c)
    case None => [c]
    case Some(i) => Output(table[i])
  }

  /** Every character replaced by its image, from left to right: section 3 of RFC 3454. */
  function Substituted(table: Table, s: seq<Wc>): seq<Wc> {
    if s == [] then [] else Substituted(table, s[..|s| - 1]) + Image(table, s[|s| - 1])
  }

  /** No output of the table is itself in the table. */
  ghost predicate Clean(table: Table) {
    forall k, x :: 0 <= k < |table| && x in Output(table[k]) ==> !In(table, x)
  }

  lemma {:induction false} SubstitutedNext(table: Table, s: seq<Wc>, k: nat)
    requires k < |s|
    ensures Substituted(table, s[..k + 1]) == Substituted(table, s[..k]) + Image(table, s[k])
  {
    assert s[..k + 1][..k] == s[..k];
  }

  /** Characters outside the table stay. */
  lemma {:induction false} SubstitutedStays(table: Table, s: seq<Wc>, k: nat, n: nat)
    requires k <= n <= |s| && forall j :: k <= j < n ==> !In(table, s[j])
    ensures Substituted(table, s[..n]) == Substituted(table, s[..k]) + s[k..n]
    decreases n
  {
    hide Substituted, In;
    if k < n {
      SubstitutedStays(table, s, k, n - 1);
      SubstitutedNext(table, s, n - 1);
      assert Image(table, s[n - 1]) == [s[n - 1]] by { Untouched(table, s[n - 1]); }
      assert s[k..n] == s[k..n - 1] + [s[n - 1]];
    } else {
      assert s[k..n] == [];
    }
  }

  lemma {:induction false} Untouched(table: Table, c: Wc)
    requires !In(table, c)
    ensures Image(table, c) == [c]
  {
  }

  /** What a clean table has produced is not in it. */
  lemma {:induction false} SubstitutedOutside(table: Table, s: seq<Wc>)
    requires Clean(table)
    ensures forall k :: 0 <= k < |Substituted(table, s)| ==> !In(table, Substituted(table, s)[k])
    decreases |s|
  {
    hide Output;
    if s != [] {
      SubstitutedOutside(table, s[..|s| - 1]);
      var i := Image(table, s[|s| - 1]);
      forall k | 0 <= k < |i| ensures !In(table, i[k]) { assert i[k] in i; }
    }
  }

  lemma {:induction false} SubstitutedSize(table: Table, s: seq<Wc>)
    ensures |Substituted(table, s)| <= MAX_MAP_CHARS * |s|
    decreases |s|
  {
    hide Image;
    if s != [] { SubstitutedSize(table, s[..|s| - 1]); }
  }

  /** The string when its first k characters have been replaced. */
  function Halfway(table: Table, s: seq<Wc>, k: nat): seq<Wc>
    requires k <= |s|
  {
    Substituted(table, s[..k]) + s[k..]
  }

  /** When character k has been replaced, the string no longer fits. */
  ghost predicate Crowded(table: Table, s: seq<Wc>, max: nat, k: nat) {
    k < |s| && In(table, s[k]) && |Halfway(table, s, k + 1)| >= max
  }

  ghost predicate TooSmall(table: Table, s: seq<Wc>, max: nat) {
    exists k: nat :: Crowded(table, s, max, k)
  }

  /** The array w with d written over it at dest. */
  function Over(w: seq<Wc>, dest: nat, d: seq<Wc>): seq<Wc>
    requires dest + |d| <= |w|
  {
    w[..dest] + d + w[dest + |d|..]
  }

  lemma {:induction false} OverOne(w: seq<Wc>, dest: nat, d: seq<Wc>, j: nat)
    requires dest + |d| <= |w| && j <= |d|
    ensures var v := Over(w, dest, d[..j]);
      && |v| == |w| && (j == 0 ==> v == w) && d[..|d|] == d
      && (forall k :: dest + j <= k < |w| ==> v[k] == w[k])
      && (j < |d| ==> v[dest + j := d[j]] == Over(w, dest, d[..j + 1]))
  {
  }

  lemma {:induction false} OverBack(w: seq<Wc>, dest: nat, d: seq<Wc>, j: nat)
    requires dest + |d| <= |w| && j <= |d|
    ensures var v := Over(w, dest + j, d[j..]);
      && |v| == |w| && (j == |d| ==> v == w) && d[0..] == d
      && (forall k :: 0 <= k < dest + j ==> v[k] == w[k])
      && (j > 0 ==> v[dest + j - 1 := d[j - 1]] == Over(w, dest + j - 1, d[j - 1..]))
  {
  }

  /** memmove within the array, upward or downward. */
  method Move(a: array<Wc>, dest: nat, src: nat, n: nat)
    requires dest + n <= a.Length && src + n <= a.Length
    modifies a
    ensures var w := old(a[..]); a[..] == Over(w, dest, w[src..src + n])
  {
    hide Over;
    ghost var w := a[..];
    ghost var d := w[src..src + n];
    if dest <= src {
      var j := 0;
      OverOne(w, dest, d, 0);
      while j < n
        invariant j <= n && a[..] == Over(w, dest, d[..j])
      {
        OverOne(w, dest, d, j);
        assert a[src + j] == a[..][src + j] == d[j];
        a[dest + j] := a[src + j];
        j := j + 1;
      }
    } else {
      var j := n;
      OverBack(w, dest, d, n);
      while j > 0
        invariant 0 <= j <= n && a[..] == Over(w, dest + j, d[j..])
      {
        OverBack(w, dest, d, j);
        assert a[src + j - 1] == a[..][src + j - 1] == d[j - 1];
        a[dest + j - 1] := a[src + j - 1];
        j := j - 1;
      }
      assert d[0..] == d;
    }
  }

  /** memcpy into the array. */
  method Copy(a: array<Wc>, dest: nat, m: seq<Wc>)
    requires dest + |m| <= a.Length
    modifies a
    ensures a[..] == Over(old(a[..]), dest, m)
  {
    hide Over;
    ghost var w := a[..];
    var j := 0;
    OverOne(w, dest, m, 0);
    while j < |m|
      invariant j <= |m| && a[..] == Over(w, dest, m[..j])
    {
      OverOne(w, dest, m, j);
      a[dest + j] := m[j];
      j := j + 1;
    }
  }

  lemma {:induction false} Spliced(w: seq<Wc>, len: nat, pos: nat, m: seq<Wc>)
    requires pos < len <= |w| && len - 1 + |m| <= |w|
    ensures var v := Over(w, pos + |m|, w[pos + 1..len]);
      && |v| == |w|
      && var u := Over(v, pos, m);
      && |u| == |w| && u[..len - 1 + |m|] == w[..len][..pos] + m + w[..len][pos + 1..]
      && u[len - 1 + |m|..] == w[len - 1 + |m|..]
  {
  }

  /** Replaces the character at pos by m. */
  method ReplaceAt(a: array<Wc>, len: nat, pos: nat, m: seq<Wc>)
    requires pos < len <= a.Length && len - 1 + |m| <= a.Length
    modifies a
    ensures var t := old(a[..len]); a[..len - 1 + |m|] == t[..pos] + m + t[pos + 1..]
    ensures a[len - 1 + |m|..] == old(a[len - 1 + |m|..])
  {
    hide Over;
    Spliced(a[..], len, pos, m);
    assert a[..][pos + 1..pos + 1 + (len - pos - 1)] == a[..][pos + 1..len];
    Move(a, pos + |m|, pos + 1, len - pos - 1);
    Copy(a, pos, m);
  }

  /** stringprep_apply_table_to_string: maps the string in place, never touching the buffer at or past
      max, unless on the way it would not fit. */
  method ApplyTable(ucs4: array<Wc>, len: nat, max: nat, table: Table) returns (ok: bool, len': nat)
    requires len <= max <= ucs4.Length && Clean(table)
    modifies ucs4
    ensures ok <==> !TooSmall(table, old(ucs4[..len]), max)
    ensures ok ==> len' <= max && ucs4[..len'] == Substituted(table, old(ucs4[..len]))
    ensures ucs4[max..] == old(ucs4[max..])
  {
    hide Substituted, Clean, Output, Meets, In, Image, Crowded, Halfway;
    ghost var s := ucs4[..len];
    len' := len;
    ghost var k := 0;
    Beginning(table, s);
    while true
      invariant k <= |s| && len' <= max && ucs4[..len'] == Halfway(table, s, k)
      invariant forall j: nat :: j < k ==> !Crowded(table, s, max, j)
      invariant ucs4[max..] == old(ucs4[max..])
      decreases |s| - k
    {
      var pos, row := FindString(ucs4, len', table);
      if pos == -1 {
        Finished(table, s, k, max);
        return true, len';
      }
      ghost var t := ucs4[..len'];
      assert forall j :: 0 <= j < pos ==> t[j] == ucs4[j];
      Found(table, t[pos], row);
      ghost var n := NextIn(table, s, k, t, pos);
      var m := TrimMap(table[row]);
      Replaced(table, s, n, t, pos);
      if len' - 1 + |m| >= max {
        TooMany(table, s, max, n);
        return false, len';
      }
      Skipped(table, s, max, k, n);
      ghost var w := ucs4[..];
      ReplaceAt(ucs4, len', pos, m);
      len' := len' - 1 + |m|;
      assert ucs4[max..] == ucs4[len'..][max - len'..] == w[max..];
      k := n + 1;
    }
  }

  lemma {:induction false} Found(table: Table, c: Wc, row: nat)
    requires FindFrom(table, 0, c) == Some(row)
    ensures In(table, c) && Image(table, c) == Output(table[row])
  {
    hide Output;
  }

  lemma {:induction false} TooMany(table: Table, s: seq<Wc>, max: nat, n: nat)
    requires n < |s| && In(table, s[n]) && |Halfway(table, s, n + 1)| >= max
    ensures TooSmall(table, s, max)
  {
    assert Crowded(table, s, max, n);
  }

  /** The length of a row's map, found from its end. */
  method TrimMap(e: Element) returns (m: seq<Wc>)
    requires |e.map'| == MAX_MAP_CHARS
    ensures m == Output(e)
  {
    var maplen: nat := MAX_MAP_CHARS;
    while maplen > 0 && e.map'[maplen - 1] == 0
      invariant maplen <= MAX_MAP_CHARS && Trimmed(e.map', MAX_MAP_CHARS) == Trimmed(e.map', maplen)
    {
      maplen := maplen - 1;
    }
    m := e.map'[..maplen];
  }

  lemma {:induction false} Beginning(table: Table, s: seq<Wc>)
    ensures s == Halfway(table, s, 0)
  {
  }

  lemma {:induction false} Finished(table: Table, s: seq<Wc>, k: nat, max: nat)
    requires k <= |s| && !Meets(table, Halfway(table, s, k))
    requires forall j: nat :: j < k ==> !Crowded(table, s, max, j)
    ensures Halfway(table, s, k) == Substituted(table, s) && !TooSmall(table, s, max)
  {
    hide Substituted, In;
    var t := Substituted(table, s[..k]) + s[k..];
    forall j | k <= j < |s| ensures !In(table, s[j]) {
      assert t[|Substituted(table, s[..k])| + j - k] == s[j];
    }
    SubstitutedStays(table, s, k, |s|);
    assert s[..|s|] == s;
  }

  /** The first character found in the table is one not yet replaced. */
  lemma {:induction false} NextIn(table: Table, s: seq<Wc>, k: nat, t: seq<Wc>, pos: nat) returns (n: nat)
    requires Clean(table) && k <= |s| && t == Halfway(table, s, k) && pos < |t| && In(table, t[pos])
    requires forall j :: 0 <= j < pos ==> !In(table, t[j])
    ensures k <= n < |s| && s[n] == t[pos] && pos == |Substituted(table, s[..n])|
    ensures t == Halfway(table, s, n)
    ensures forall j :: k <= j < n ==> !In(table, s[j])
  {
    hide Substituted, In, Clean;
    var a := Substituted(table, s[..k]);
    SubstitutedOutside(table, s[..k]);
    assert forall j :: 0 <= j < |a| ==> !In(table, t[j]);
    n := k + pos - |a|;
    forall j | k <= j < n ensures !In(table, s[j]) { assert t[|a| + j - k] == s[j]; }
    SubstitutedStays(table, s, k, n);
    assert s[k..] == s[k..n] + s[n..];
  }

  lemma {:induction false} Skipped(table: Table, s: seq<Wc>, max: nat, k: nat, n: nat)
    requires k <= n < |s| && |Halfway(table, s, n + 1)| < max
    requires forall j :: k <= j < n ==> !In(table, s[j])
    requires forall j: nat :: j < k ==> !Crowded(table, s, max, j)
    ensures forall j: nat :: j < n + 1 ==> !Crowded(table, s, max, j)
  {
    hide Halfway, In;
  }

  lemma {:induction false} Replaced(table: Table, s: seq<Wc>, n: nat, t: seq<Wc>, pos: nat)
    requires n < |s| && t == Halfway(table, s, n) && pos == |Substituted(table, s[..n])| && pos < |t|
    ensures var m := Image(table, s[n]);
      t[..pos] + m + t[pos + 1..] == Halfway(table, s, n + 1) && |Halfway(table, s, n + 1)| == |t| - 1 + |m|
  {
    hide Substituted, Image;
    SubstitutedNext(table, s, n);
    assert s[n..] == [s[n]] + s[n + 1..];
  }

  // ---- Profiles ------------------------------------------------------------------------------------------

  datatype Rc =
    | ContainsUnassigned | ContainsProhibited | BidiBothLAndRal | BidiLeadtrailNotRal | BidiContainsProhibited
    | TooSmallBuffer | ProfileError | FlagError | NfkcFailed | MallocError

  /** Flags are sets of bits. */
  type Flags = set<nat>

  const NO_NFKC: nat := 0
  const NO_UNASSIGNED: nat := 2

  datatype Step =
    | Nfkc(flags: Flags) | BidiCheck | MapTable(table: Table, flags: Flags)
    | UnassignedTable(table: Table, flags: Flags)
    | ProhibitTable(table: Table) | BidiProhibit(table: Table) | BidiRal(table: Table) | BidiL(table: Table) | Unknown

  type Profile = seq<Step>

  /** UNAPPLICAPLEFLAGS: for every value a step's flags take, the macro comes to this. */
  predicate Unapplicable(flags: Flags, stepFlags: Flags) {
    flags * stepFlags != {}
  }

  /** The tables normalization works from. */
  datatype Norm = Norm(table: seq<Entry>, cc: Classes, pairs: Pairs)

  ghost predicate ProfileOk(profile: Profile, norm: Norm) {
    TableOk(norm.table) && forall k :: 0 <= k < |profile| && profile[k].MapTable? ==> Clean(profile[k].table)
  }

  datatype Outcome = Done(s: seq<Wc>) | Fails(rc: Rc)

  /** stringprep_ucs4_nfkc_normalize: the normal form up to its terminator, if the string can be encoded. */
  function Normalized(norm: Norm, s: seq<Wc>): Option<seq<Wc>> {
    var cs := UpToZero(s);
    if Text(cs) then Some(UpToZero(Normal(norm.table, true, true, norm.cc, norm.pairs, cs))) else None
  }

  // ---- The check of directions -------------------------------------------------------------------------

  ghost predicate Prohibits(profile: Profile, s: seq<Wc>) {
    exists j :: 0 <= j < |profile| && profile[j].BidiProhibit? && Meets(profile[j].table, s)
  }

  ghost predicate HasLeft(profile: Profile, s: seq<Wc>) {
    exists j :: 0 <= j < |profile| && profile[j].BidiL? && Meets(profile[j].table, s)
  }

  ghost predicate Complete(profile: Profile) {
    && (exists j :: 0 <= j < |profile| && profile[j].BidiProhibit?)
    && (exists j :: 0 <= j < |profile| && profile[j].BidiRal?)
    && (exists j :: 0 <= j < |profile| && profile[j].BidiL?)
  }

  /** The last table of right-to-left characters that the string meets. */
  ghost function LastRal(profile: Profile, s: seq<Wc>, n: nat): (r: Option<nat>)
    requires n <= |profile|
    ensures r.Some? ==> r.value < n && profile[r.value].BidiRal? && Meets(profile[r.value].table, s)
  {
    if n == 0 then None
    else if profile[n - 1].BidiRal? && Meets(profile[n - 1].table, s) then Some(n - 1)
    else LastRal(profile, s, n - 1)
  }

  /** Why the string fails the check, if it does: section 6 of RFC 3454. */
  ghost function BidiOf(profile: Profile, s: seq<Wc>): Option<Rc> {
    var ral := LastRal(profile, s, |profile|);
    if Prohibits(profile, s) then Some(BidiContainsProhibited)
    else if !Complete(profile) then Some(ProfileError)
    else if ral == None then None
    else if HasLeft(profile, s) then Some(BidiBothLAndRal)
    else if In(profile[ral.value].table, s[0]) && In(profile[ral.value].table, s[|s| - 1]) then None
    else Some(BidiLeadtrailNotRal)
  }

  method Bidi(ucs4: array<Wc>, len: nat, profile: Profile) returns (rc: Option<Rc>)
    requires len <= ucs4.Length
    ensures rc == BidiOf(profile, ucs4[..len])
  {
    hide Meets, In;
    ghost var s := ucs4[..len];
    var doneProhibited, doneRal, doneL, ral: Option<nat>, left := false, false, false, None, false;
    var j := 0;
    while j < |profile|
      invariant j <= |profile| && !Prohibits(profile[..j], s)
      invariant doneProhibited <==> exists k :: 0 <= k < j && profile[k].BidiProhibit?
      invariant doneRal <==> exists k :: 0 <= k < j && profile[k].BidiRal?
      invariant doneL <==> exists k :: 0 <= k < j && profile[k].BidiL?
      invariant ral == LastRal(profile, s, j)
      invariant left <==> HasLeft(profile[..j], s)
    {
      var step := profile[j];
      OneMoreStep(profile, s, j);
      if step.BidiProhibit? {
        doneProhibited := true;
        var k, row := FindString(ucs4, len, step.table);
        if k != -1 {
          AlreadyProhibited(profile, s, j);
          return Some(BidiContainsProhibited);
        }
      } else if step.BidiRal? {
        doneRal := true;
        var k, row := FindString(ucs4, len, step.table);
        if k != -1 { ral := Some(j); }
      } else if step.BidiL? {
        doneL := true;
        var k, row := FindString(ucs4, len, step.table);
        if k != -1 { left := true; }
      }
      j := j + 1;
    }
    assert profile[..j] == profile;
    if !doneProhibited || !doneRal || !doneL { return Some(ProfileError); }
    if ral.Some? {
      if left { return Some(BidiBothLAndRal); }
      NotEmpty(profile[ral.value].table, s);
      var t := profile[ral.value].table;
      var first := FindChar(t, ucs4[0]);
      var last := FindChar(t, ucs4[len - 1]);
      InTable(t, s[0]);
      InTable(t, s[len - 1]);
      if !(first != -1 && last != -1) { return Some(BidiLeadtrailNotRal); }
    }
    rc := None;
  }

  lemma {:induction false} InTable(table: Table, c: Wc)
    ensures In(table, c) <==> FindFrom(table, 0, c).Some?
  {
  }

  lemma {:induction false} NotEmpty(table: Table, s: seq<Wc>)
    requires Meets(table, s)
    ensures s != []
  {
  }

  lemma {:induction false} AlreadyProhibited(profile: Profile, s: seq<Wc>, j: nat)
    requires j < |profile| && Prohibits(profile[..j + 1], s)
    ensures Prohibits(profile, s)
  {
    hide Meets;
    var k :| 0 <= k < |profile[..j + 1]| && profile[..j + 1][k].BidiProhibit? && Meets(profile[..j + 1][k].table, s);
    assert profile[k] == profile[..j + 1][k];
  }

  lemma {:induction false} OneMoreStep(profile: Profile, s: seq<Wc>, j: nat)
    requires j < |profile|
    ensures Prohibits(profile[..j + 1], s) <==>
      Prohibits(profile[..j], s) || (profile[j].BidiProhibit? && Meets(profile[j].table, s))
    ensures HasLeft(profile[..j + 1], s) <==>
      HasLeft(profile[..j], s) || (profile[j].BidiL? && Meets(profile[j].table, s))
  {
    hide Meets;
    var p, q := profile[..j], profile[..j + 1];
    assert q[j] == profile[j];
    assert forall k :: 0 <= k < j ==> p[k] == q[k];
  }

  // ---- The driver -----------------------------------------------------------------------------------------

  /** One step with room for max code points. */
  ghost function StepOf(step: Step, s: seq<Wc>, max: nat, flags: Flags, profile: Profile, norm: Norm): Outcome {
    match step
    case Nfkc(f) =>
      if Unapplicable(flags, f) then Done(s)
      else if NO_NFKC in flags && f == {} then Fails(FlagError)
      else
        (match Normalized(norm, s)
         case None => Fails(NfkcFailed)
         case Some(q) => if |q| >= max then Fails(TooSmallBuffer) else Done(q))
    case ProhibitTable(t) => if Meets(t, s) then Fails(ContainsProhibited) else Done(s)
    case UnassignedTable(t, f) =>
      if !Unapplicable(flags, f) && NO_UNASSIGNED in flags && Meets(t, s) then Fails(ContainsUnassigned) else Done(s)
    case MapTable(t, f) =>
      if Unapplicable(flags, f) then Done(s)
      else if TooSmall(t, s, max) then Fails(TooSmallBuffer)
      else Done(Substituted(t, s))
    case BidiProhibit(_) => Done(s)
    case BidiRal(_) => Done(s)
    case BidiL(_) => Done(s)
    case BidiCheck => (match BidiOf(profile, s) case None => Done(s) case Some(rc) => Fails(rc))
    case Unknown => Fails(ProfileError)
  }

  /** The steps from i on. */
  ghost function RunFrom(i: nat, s: seq<Wc>, max: nat, flags: Flags, profile: Profile, norm: Norm): Outcome
    decreases |profile| - i
  {
    if i >= |profile| then Done(s)
    else
      match StepOf(profile[i], s, max, flags, profile, norm)
      case Fails(rc) => Fails(rc)
      case Done(s') => RunFrom(i + 1, s', max, flags, profile, norm)
  }

  /** Normalizes the string into the buffer, if the result leaves room in it. */
  method NormalizeInto(ucs4: array<Wc>, len: nat, max: nat, norm: Norm) returns (rc: Option<Rc>, len': nat)
    requires len <= max <= ucs4.Length && TableOk(norm.table)
    modifies ucs4
    ensures match Normalized(norm, old(ucs4[..len]))
      case None => rc == Some(NfkcFailed)
      case Some(q) => if |q| >= max then rc == Some(TooSmallBuffer) else rc == None && len' == |q| && ucs4[..len'] == q
    ensures ucs4[max..] == old(ucs4[max..])
  {
    hide Normal, TableOk, EncodeAll, UpToZero;
    len' := len;
    ghost var cs := UpToZero(ucs4[..len]);
    var p := ToUtf8(ucs4[..len]);
    match p {
      case OutOfRange(i) =>
        assert cs[i] in cs;
        return Some(NfkcFailed), len;
      case Bytes(b) =>
        assert b[..b.Length - 1] == b[..][..b.Length - 1];
        var q, n := NormalizeWc(b[..b.Length - 1], cs, norm.table, true, true, norm.cc, norm.pairs);
        var m := CountToZero(q, n);
        if m >= max { return Some(TooSmallBuffer), len; }
        Copy(ucs4, 0, q[..m]);
        assert ucs4[..m] == q[..m];
        return None, m;
    }
  }

  method CountToZero(q: array<Wc>, n: nat) returns (m: nat)
    requires n < q.Length && q[n] == 0
    ensures m <= n && q[..m] == UpToZero(q[..n])
  {
    m := 0;
    while q[m] != 0
      invariant m <= n && forall k :: 0 <= k < m ==> q[k] != 0
      decreases n - m
    {
      m := m + 1;
    }
    ZeroAt(q[..n], m);
  }

  /** One step of stringprep_4i. */
  method DoStep(step: Step, ucs4: array<Wc>, len: nat, max: nat, flags: Flags, profile: Profile, norm: Norm)
    returns (rc: Option<Rc>, len': nat)
    requires len <= max <= ucs4.Length && TableOk(norm.table) && (step.MapTable? ==> Clean(step.table))
    modifies ucs4
    ensures match StepOf(step, old(ucs4[..len]), max, flags, profile, norm)
      case Fails(e) => rc == Some(e)
      case Done(s) => rc == None && len' <= max && ucs4[..len'] == s
    ensures ucs4[max..] == old(ucs4[max..])
  {
    hide Clean, TableOk, Meets, Normalized, BidiOf, TooSmall, Substituted;
    rc, len' := None, len;
    match step {
      case Nfkc(f) =>
        if Unapplicable(flags, f) { return; }
        if NO_NFKC in flags && f == {} { return Some(FlagError), len; }
        rc, len' := NormalizeInto(ucs4, len, max, norm);
      case ProhibitTable(t) =>
        var k, row := FindString(ucs4, len, t);
        if k != -1 { return Some(ContainsProhibited), len; }
      case UnassignedTable(t, f) =>
        if Unapplicable(flags, f) { return; }
        if NO_UNASSIGNED in flags {
          var k, row := FindString(ucs4, len, t);
          if k != -1 { return Some(ContainsUnassigned), len; }
        }
      case MapTable(t, f) =>
        if Unapplicable(flags, f) { return; }
        var ok;
        ok, len' := ApplyTable(ucs4, len, max, t);
        if !ok { return Some(TooSmallBuffer), len; }
      case BidiProhibit(_) =>
      case BidiRal(_) =>
      case BidiL(_) =>
      case BidiCheck => rc := Bidi(ucs4, len, profile);
      case Unknown => return Some(ProfileError), len;
    }
  }

  /** stringprep_4i: never touches the buffer at or past max. */
  method Prepare(ucs4: array<Wc>, len: nat, max: nat, flags: Flags, profile: Profile, norm: Norm)
    returns (rc: Option<Rc>, len': nat)
    requires len <= max <= ucs4.Length && ProfileOk(profile, norm)
    modifies ucs4
    ensures match RunFrom(0, old(ucs4[..len]), max, flags, profile, norm)
      case Fails(e) => rc == Some(e)
      case Done(s) => rc == None && len' <= max && ucs4[..len'] == s
    ensures ucs4[max..] == old(ucs4[max..])
  {
    hide Clean, TableOk, StepOf;
    rc, len' := None, len;
    var i := 0;
    ghost var s := ucs4[..len];
    while i < |profile|
      invariant i <= |profile| && len' <= max
      invariant RunFrom(i, ucs4[..len'], max, flags, profile, norm) == RunFrom(0, s, max, flags, profile, norm)
      invariant ucs4[max..] == old(ucs4[max..])
    {
      ghost var t := ucs4[..len'];
      rc, len' := DoStep(profile[i], ucs4, len', max, flags, profile, norm);
      if rc.Some? { return; }
      i := i + 1;
    }
    rc := None;
  }

  // ---- Capacity does not matter once it is enough --------------------------------------------------

  lemma {:induction false} RoomierMap(t: Table, s: seq<Wc>, max: nat, larger: nat)
    requires max <= larger && !TooSmall(t, s, max)
    ensures !TooSmall(t, s, larger)
  {
    forall k: nat ensures !Crowded(t, s, larger, k) { assert !Crowded(t, s, max, k); }
  }

  lemma {:induction false} RoomierStep(step: Step, s: seq<Wc>, max: nat, larger: nat, flags: Flags, profile: Profile,
                                       norm: Norm)
    requires max <= larger && StepOf(step, s, max, flags, profile, norm) != Fails(TooSmallBuffer)
    ensures StepOf(step, s, larger, flags, profile, norm) == StepOf(step, s, max, flags, profile, norm)
  {
    hide TooSmall, Normalized, BidiOf, Meets, Substituted;
    if step.MapTable? && !TooSmall(step.table, s, max) { RoomierMap(step.table, s, max, larger); }
  }

  /** Any result but that of too small a buffer is the same for every larger capacity. */
  lemma {:induction false} Roomier(i: nat, s: seq<Wc>, max: nat, larger: nat, flags: Flags, profile: Profile,
                                   norm: Norm)
    requires max <= larger && RunFrom(i, s, max, flags, profile, norm) != Fails(TooSmallBuffer)
    ensures RunFrom(i, s, larger, flags, profile, norm) == RunFrom(i, s, max, flags, profile, norm)
    decreases |profile| - i
  {
    hide StepOf;
    if i < |profile| {
      RoomierStep(profile[i], s, max, larger, flags, profile, norm);
      var r := StepOf(profile[i], s, max, flags, profile, norm);
      if r.Done? { Roomier(i + 1, r.s, max, larger, flags, profile, norm); }
    }
  }

  /** A capacity that is enough for every step from i on. */
  ghost function Enough(i: nat, s: seq<Wc>, flags: Flags, profile: Profile, norm: Norm): nat
    decreases |profile| - i
  {
    if i >= |profile| then 0
    else
      var here := MAX_MAP_CHARS * |s| + 1 + (match Normalized(norm, s) case None => 0 case Some(q) => |q|);
      here + match StepOf(profile[i], s, here, flags, profile, norm)
             case Fails(_) => 0
             case Done(s') => Enough(i + 1, s', flags, profile, norm)
  }

  lemma {:induction false} MapFits(t: Table, s: seq<Wc>, max: nat)
    requires max > MAX_MAP_CHARS * |s|
    ensures !TooSmall(t, s, max)
  {
    forall k: nat ensures !Crowded(t, s, max, k) {
      if k < |s| { SubstitutedSize(t, s[..k + 1]); }
    }
  }

  lemma {:induction false} StepFits(step: Step, s: seq<Wc>, max: nat, flags: Flags, profile: Profile, norm: Norm)
    requires max > MAX_MAP_CHARS * |s| + (match Normalized(norm, s) case None => 0 case Some(q) => |q|)
    ensures StepOf(step, s, max, flags, profile, norm) != Fails(TooSmallBuffer)
  {
    hide TooSmall, Normalized, Meets, Substituted, LastRal, Prohibits, Complete, HasLeft;
    if step.MapTable? { MapFits(step.table, s, max); }
  }

  lemma {:induction false} EnoughFits(i: nat, s: seq<Wc>, max: nat, flags: Flags, profile: Profile, norm: Norm)
    requires max >= Enough(i, s, flags, profile, norm)
    ensures RunFrom(i, s, max, flags, profile, norm) != Fails(TooSmallBuffer)
    decreases |profile| - i
  {
    hide StepOf, Normalized;
    if i < |profile| {
      var here := MAX_MAP_CHARS * |s| + 1 + (match Normalized(norm, s) case None => 0 case Some(q) => |q|);
      StepFits(profile[i], s, here, flags, profile, norm);
      RoomierStep(profile[i], s, here, max, flags, profile, norm);
      var r := StepOf(profile[i], s, here, flags, profile, norm);
      if r.Done? { EnoughFits(i + 1, r.s, max, flags, profile, norm); }
    }
  }

  /** What preparing the string comes to, given room enough. */
  ghost function Prepared(s: seq<Wc>, flags: Flags, profile: Profile, norm: Norm): Outcome {
    RunFrom(0, s, Enough(0, s, flags, profile, norm), flags, profile, norm)
  }

  lemma {:induction false} SameAnswer(s: seq<Wc>, max: nat, flags: Flags, profile: Profile, norm: Norm)
    requires RunFrom(0, s, max, flags, profile, norm) != Fails(TooSmallBuffer)
    ensures RunFrom(0, s, max, flags, profile, norm) == Prepared(s, flags, profile, norm)
  {
    hide RunFrom;
    var e := Enough(0, s, flags, profile, norm);
    EnoughFits(0, s, e, flags, profile, norm);
    if e <= max { Roomier(0, s, e, max, flags, profile, norm); } else { Roomier(0, s, max, e, flags, profile, norm); }
  }

  /** The retry loop of stringprep: the answer is the one that room enough gives, however often it
      retried. */
  method Retry(str: seq<Byte>, ghost cs: seq<Wc>, flags: Flags, profile: Profile, norm: Norm)
    returns (rc: Option<Rc>, ucs4: array<Wc>, len: nat)
    requires Text(cs) && str == EncodeAll(cs) && ProfileOk(profile, norm)
    ensures match Prepared(cs, flags, profile, norm)
      case Fails(e) => rc == Some(e) && e != TooSmallBuffer
      case Done(s) => rc == None && len <= ucs4.Length && ucs4[..len] == s
  {
    hide EncodeAll, ProfileOk, RunFrom, Enough;
    var add := 50;
    ghost var enough := Enough(0, cs, flags, profile, norm);
    while true
      invariant add >= 50
      decreases if add < enough then enough - add else 0
    {
      var decoded := ToUcs4(str, cs);
      var max := decoded.Length - 1 + add;
      ucs4 := new Wc[max](_ => 0);
      Copy(ucs4, 0, decoded[..decoded.Length - 1]);
      assert ucs4[..|cs|] == cs;
      rc, len := Prepare(ucs4, decoded.Length - 1, max, flags, profile, norm);
      add := add + 50;
      if max >= enough { EnoughFits(0, cs, max, flags, profile, norm); }
      if rc != Some(TooSmallBuffer) {
        SameAnswer(cs, max, flags, profile, norm);
        return;
      }
    }
  }

  /** stringprep: prepares the zero-terminated string in its buffer of maxlen bytes. */
  method StringPrep(input: array<Byte>, ghost cs: seq<Wc>, flags: Flags, profile: Profile, norm: Norm)
    returns (rc: Option<Rc>)
    requires Text(cs) && |EncodeAll(cs)| < input.Length && input[..|EncodeAll(cs)| + 1] == EncodeAll(cs) + [0]
    requires ProfileOk(profile, norm)
    modifies input
    ensures match Prepared(cs, flags, profile, norm)
      case Fails(e) => rc == Some(e)
      case Done(s) =>
        var t := UpToZero(s);
        if !Text(t) then rc == Some(MallocError)
        else if |EncodeAll(t)| >= input.Length then rc == Some(TooSmallBuffer)
        else rc == None && input[..|EncodeAll(t)| + 1] == EncodeAll(t) + [0]
    ensures rc != None ==> input[..] == old(input[..])
  {
    hide EncodeAll, ProfileOk, Prepared, UpToZero;
    var n := StringLength(input, cs);
    assert input[..n] == input[..n + 1][..n];
    var r, ucs4, len := Retry(input[..n], cs, flags, profile, norm);
    if r.Some? { return r; }
    ghost var t := UpToZero(ucs4[..len]);
    var utf8 := ToUtf8(ucs4[..len]);
    match utf8 {
      case OutOfRange(i) =>
        assert t[i] in t;
        return Some(MallocError);
      case Bytes(b) =>
        if b.Length - 1 >= input.Length { return Some(TooSmallBuffer); }
        CopyBytes(input, b);
        return None;
    }
  }

  method CopyBytes(dest: array<Byte>, src: array<Byte>)
    requires src.Length <= dest.Length && src != dest
    modifies dest
    ensures dest[..src.Length] == src[..]
  {
    var j := 0;
    while j < src.Length
      invariant j <= src.Length && dest[..j] == src[..j]
    {
      dest[j] := src[j];
      j := j + 1;
    }
  }

  /** strlen of a string with no zero byte inside. */
  method StringLength(input: array<Byte>, ghost cs: seq<Wc>) returns (n: nat)
    requires Text(cs) && |EncodeAll(cs)| < input.Length && input[..|EncodeAll(cs)| + 1] == EncodeAll(cs) + [0]
    ensures n == |EncodeAll(cs)|
  {
    hide EncodeAll;
    n := 0;
    ghost var e := EncodeAll(cs);
    NoZeroInside(cs);
    assert forall k :: 0 <= k < |e| ==> input[k] == input[..|e| + 1][k] == e[k];
    assert input[|e|] == input[..|e| + 1][|e|] == 0;
    while input[n] != 0
      invariant n <= |e|
      decreases |e| - n
    {
      n := n + 1;
    }
  }

  lemma {:induction false} NoZeroInside(cs: seq<Wc>)
    requires Text(cs)
    ensures forall k :: 0 <= k < |EncodeAll(cs)| ==> EncodeAll(cs)[k] != 0
  {
    hide Encode;
    if cs != [] {
      assert cs[0] in cs;
      NoZeroInside(cs[1..]);
      NoZeroByte(cs[0]);
    }
  }

  lemma {:induction false} NoZeroByte(c: Wc)
    requires InRange(c) && c != 0
    ensures forall k :: 0 <= k < |Encode(c)| ==> Encode(c)[k] != 0
  {
    FirstByte(c);
    TailContinues(c, Width(c) - 1);
    var t := Tail(c, Width(c) - 1);
    assert forall k :: 0 <= k < |t| ==> t[k] in t;
  }
}
