/** What a profile promises of the strings it prepares, said without its steps. */
module StringprepMeaning {
  import opened Basics
  import opened Utf8
  import opened NfkcCompose
  import opened Stringprep

  // ---- Tables ---------------------------------------------------------------------------------------------

  /** The row is for c alone or for a range with c in it. */
  predicate RowHas(e: Element, c: Wc) {
    if e.end == 0 then c == e.start else e.start <= c && c <= e.end
  }

  /** Row i is the one for c: the first that has it, before any row of zeros. */
  predicate RowFor(table: Table, i: nat, c: Wc) {
    && i < |table| && RowHas(table[i], c)
    && (forall k :: 0 <= k <= i ==> table[k].start != 0 || table[k].end != 0)
    && forall k :: 0 <= k < i ==> !RowHas(table[k], c)
  }

  lemma {:induction false} FindsRow(table: Table, i: nat, c: Wc)
    requires i <= |table| && forall k :: 0 <= k < i ==> !RowHas(table[k], c)
    requires forall k :: 0 <= k < i ==> table[k].start != 0 || table[k].end != 0
    ensures match FindFrom(table, i, c)
      case Some(r) => RowFor(table, r, c)
      case None => forall r :: !RowFor(table, r, c)
    decreases |table| - i
  {
    if i < |table| && !Terminates(table[i]) && !Covers(table[i], c) { FindsRow(table, i + 1, c); }
  }

  /** A row's map, without the zeros it is padded with. */
  lemma {:induction false} TrimmedZeros(m: seq<Wc>, n: nat)
    requires n <= |m|
    ensures var r := Trimmed(m, n);
      r == m[..|r|] && (r != [] ==> r[|r| - 1] != 0) && forall k :: |r| <= k < n ==> m[k] == 0
  {
    if n > 0 && m[n - 1] == 0 { TrimmedZeros(m, n - 1); }
  }

  lemma {:induction false} MapsOne(table: Table, c: Wc)
    ensures Substituted(table, [c]) == Image(table, c)
  {
    hide Image;
    assert [c][..0] == [];
    assert Substituted(table, []) == [];
  }

  /** A character without a row stays, one with a row becomes what the row maps it to. */
  lemma {:induction false} Becomes(table: Table, c: Wc, i: nat)
    ensures In(table, c) <==> exists r :: RowFor(table, r, c)
    ensures !In(table, c) ==> Substituted(table, [c]) == [c]
    ensures RowFor(table, i, c) ==>
      var out, m := Substituted(table, [c]), table[i].map';
      && |out| <= |m| && out == m[..|out|] && (out != [] ==> out[|out| - 1] != 0)
      && forall k :: |out| <= k < |m| ==> m[k] == 0
  {
    hide Trimmed, FindFrom, RowFor, Substituted;
    FindsRow(table, 0, c);
    MapsOne(table, c);
    if RowFor(table, i, c) {
      OneRow(table, i, FindFrom(table, 0, c).value, c);
      TrimmedZeros(table[i].map', |table[i].map'|);
    }
  }

  lemma {:induction false} OneRow(table: Table, i: nat, j: nat, c: Wc)
    requires RowFor(table, i, c) && RowFor(table, j, c)
    ensures i == j
  {
  }

  /** A string is mapped character by character. */
  lemma {:induction false} Piecewise(table: Table, s: seq<Wc>, t: seq<Wc>)
    ensures Substituted(table, s + t) == Substituted(table, s) + Substituted(table, t)
    decreases |t|
  {
    hide Image;
    if t == [] {
      assert s + t == s;
    } else {
      var k := |t| - 1;
      Piecewise(table, s, t[..k]);
      assert (s + t)[..|s + t| - 1] == s + t[..k];
    }
  }

  // ---- Checks ---------------------------------------------------------------------------------------------

  /** The requirements of section 6 of RFC 3454, for a profile with the tables that say which characters
      are prohibited, right-to-left and left-to-right: with a right-to-left character there is no
      left-to-right one, and the first and the last character are right-to-left. */
  ghost predicate Directed(profile: Profile, s: seq<Wc>) {
    && (exists j :: 0 <= j < |profile| && profile[j].BidiProhibit?)
    && (exists j :: 0 <= j < |profile| && profile[j].BidiRal?)
    && (exists j :: 0 <= j < |profile| && profile[j].BidiL?)
    && (forall j :: 0 <= j < |profile| && profile[j].BidiProhibit? ==> !Meets(profile[j].table, s))
    && (forall j, i :: 0 <= j < |profile| && 0 <= i < |profile| && profile[j].BidiRal? && profile[i].BidiL? ==>
          !Meets(profile[j].table, s) || !Meets(profile[i].table, s))
    && (forall j :: 0 <= j < |profile| && IsLastRal(profile, s, j) ==>
          s != [] && In(profile[j].table, s[0]) && In(profile[j].table, s[|s| - 1]))
  }

  /** Of the tables of right-to-left characters that the string meets, the last. */
  ghost predicate IsLastRal(profile: Profile, s: seq<Wc>, j: nat) {
    && j < |profile| && profile[j].BidiRal? && Meets(profile[j].table, s)
    && forall i :: j < i < |profile| && profile[i].BidiRal? ==> !Meets(profile[i].table, s)
  }

  /** What a step asks of a string that is not changed after it. Flags that the step and the caller share
      switch the step off. */
  ghost predicate Passes(step: Step, s: seq<Wc>, flags: Flags, profile: Profile) {
    match step
    case ProhibitTable(t) => !Meets(t, s)
    case UnassignedTable(t, f) => flags * f == {} && 2 in flags ==> !Meets(t, s)
    case MapTable(t, f) => flags * f == {} && Clean(t) ==> !Meets(t, s)
    case BidiCheck => Directed(profile, s)
    case Unknown => false
    case _ => true
  }

  predicate Changes(step: Step) {
    step.MapTable? || step.Nfkc?
  }

  lemma {:induction false} LastRalIs(profile: Profile, s: seq<Wc>, n: nat)
    requires n <= |profile| && forall i :: n <= i < |profile| && profile[i].BidiRal? ==> !Meets(profile[i].table, s)
    ensures match LastRal(profile, s, n)
      case Some(j) => IsLastRal(profile, s, j)
      case None => forall j :: 0 <= j < |profile| && profile[j].BidiRal? ==> !Meets(profile[j].table, s)
  {
    hide Meets;
    if n > 0 && !(profile[n - 1].BidiRal? && Meets(profile[n - 1].table, s)) { LastRalIs(profile, s, n - 1); }
  }

  lemma {:induction false} OneLastRal(profile: Profile, s: seq<Wc>, i: nat, j: nat)
    requires IsLastRal(profile, s, i) && IsLastRal(profile, s, j)
    ensures i == j
  {
    hide Meets;
  }

  /** The check of directions passes exactly the strings that meet the requirements. */
  lemma {:induction false} BidiMeaning(profile: Profile, s: seq<Wc>)
    ensures BidiOf(profile, s) == None <==> Directed(profile, s)
  {
    hide Meets, In;
    LastRalIs(profile, s, |profile|);
    var r := LastRal(profile, s, |profile|);
    if r.Some? {
      NotEmpty(profile[r.value].table, s);
      forall j | 0 <= j < |profile| && IsLastRal(profile, s, j) ensures j == r.value {
        OneLastRal(profile, s, r.value, j);
      }
    }
  }

  // ---- Prepared strings -----------------------------------------------------------------------------------

  ghost predicate Steady(profile: Profile, from: nat) {
    forall j :: from <= j < |profile| ==> !Changes(profile[j])
  }

  lemma {:induction false} StepPasses(step: Step, s: seq<Wc>, max: nat, flags: Flags, profile: Profile, norm: Norm)
    ensures var r := StepOf(step, s, max, flags, profile, norm);
      && (!Changes(step) ==> r == Done(s) || r.Fails?)
      && (!Changes(step) ==> (r == Done(s) <==> Passes(step, s, flags, profile)))
      && (step.MapTable? && r.Done? ==> Passes(step, r.s, flags, profile))
      && (step.Nfkc? && r.Done? ==> Passes(step, r.s, flags, profile))
  {
    hide Meets, TooSmall, Normalized, Substituted, Directed, BidiOf, Clean;
    BidiMeaning(profile, s);
    if step.MapTable? && Clean(step.table) { MappedOutside(step.table, s); }
  }

  lemma {:induction false} MappedOutside(t: Table, s: seq<Wc>)
    requires Clean(t)
    ensures !Meets(t, Substituted(t, s))
  {
    hide Clean;
    SubstitutedOutside(t, s);
  }

  /** Steps that change nothing leave the string, if all of them let it pass, or else fail. */
  lemma {:induction false} SteadyRun(i: nat, s: seq<Wc>, max: nat, flags: Flags, profile: Profile, norm: Norm)
    requires Steady(profile, i)
    ensures var r := RunFrom(i, s, max, flags, profile, norm);
      && (r == Done(s) || r.Fails?)
      && (r == Done(s) <==> forall k :: i <= k < |profile| ==> Passes(profile[k], s, flags, profile))
    decreases |profile| - i
  {
    hide StepOf, Passes, Changes;
    if i < |profile| {
      assert !Changes(profile[i]);
      StepPasses(profile[i], s, max, flags, profile, norm);
      SteadyRun(i + 1, s, max, flags, profile, norm);
    }
  }

  lemma {:induction false} RunPasses(i: nat, s: seq<Wc>, max: nat, flags: Flags, profile: Profile, norm: Norm, k: nat)
    requires i <= k < |profile| && Steady(profile, k + 1)
    ensures var r := RunFrom(i, s, max, flags, profile, norm);
      r.Done? ==> Passes(profile[k], r.s, flags, profile)
    decreases |profile| - i
  {
    hide StepOf, Passes;
    StepPasses(profile[i], s, max, flags, profile, norm);
    var r := StepOf(profile[i], s, max, flags, profile, norm);
    if r.Done? {
      if i < k {
        RunPasses(i + 1, r.s, max, flags, profile, norm, k);
      } else {
        SteadyRun(i + 1, r.s, max, flags, profile, norm);
      }
    }
  }

  /** A prepared string passes every step after which no step changes strings. It holds no prohibited
      character, no unassigned one if those are ruled out, none that a clean table would map, and its
      directions are in order. */
  lemma {:induction false} PreparedPasses(s: seq<Wc>, flags: Flags, profile: Profile, norm: Norm, k: nat)
    requires k < |profile| && forall j :: k < j < |profile| ==> !profile[j].MapTable? && !profile[j].Nfkc?
    ensures var r := Prepared(s, flags, profile, norm);
      r.Done? ==> Passes(profile[k], r.s, flags, profile)
  {
    hide RunFrom, Passes, Enough;
    RunPasses(0, s, Enough(0, s, flags, profile, norm), flags, profile, norm, k);
  }

  /** Where no step changes strings, exactly the strings that pass every step are prepared, and they stay
      as they are. */
  lemma {:induction false} ChecksOnly(s: seq<Wc>, flags: Flags, profile: Profile, norm: Norm)
    requires forall j :: 0 <= j < |profile| ==> !profile[j].MapTable? && !profile[j].Nfkc?
    ensures Prepared(s, flags, profile, norm).Done? <==>
      forall k :: 0 <= k < |profile| ==> Passes(profile[k], s, flags, profile)
    ensures Prepared(s, flags, profile, norm).Done? ==> Prepared(s, flags, profile, norm) == Done(s)
  {
    hide RunFrom, Passes, Enough;
    SteadyRun(0, s, Enough(0, s, flags, profile, norm), flags, profile, norm);
  }

  /** A step that does not fail may be taken first. */
  lemma {:induction false} FirstStep(s: seq<Wc>, t: seq<Wc>, flags: Flags, profile: Profile, norm: Norm)
    requires profile != [] && Steady(profile, 1)
    requires var max := Enough(0, s, flags, profile, norm);
      StepOf(profile[0], s, max, flags, profile, norm) == Done(t)
    ensures Prepared(s, flags, profile, norm).Done? <==>
      forall k :: 1 <= k < |profile| ==> Passes(profile[k], t, flags, profile)
    ensures Prepared(s, flags, profile, norm).Done? ==> Prepared(s, flags, profile, norm) == Done(t)
  {
    hide StepOf, Passes, Enough;
    SteadyRun(1, t, Enough(0, s, flags, profile, norm), flags, profile, norm);
  }

  lemma {:induction false} NeverTooSmall(s: seq<Wc>, flags: Flags, profile: Profile, norm: Norm)
    requires profile != []
    ensures StepOf(profile[0], s, Enough(0, s, flags, profile, norm), flags, profile, norm) != Fails(TooSmallBuffer)
  {
    hide StepOf, RunFrom;
    EnoughFits(0, s, Enough(0, s, flags, profile, norm), flags, profile, norm);
    RunFirst(s, Enough(0, s, flags, profile, norm), flags, profile, norm);
  }

  lemma {:induction false} RunFirst(s: seq<Wc>, max: nat, flags: Flags, profile: Profile, norm: Norm)
    requires profile != []
    ensures StepOf(profile[0], s, max, flags, profile, norm).Fails? ==>
      RunFrom(0, s, max, flags, profile, norm) == StepOf(profile[0], s, max, flags, profile, norm)
  {
    hide StepOf;
  }

  /** A profile that maps and then checks prepares the mapped string, if that passes every check. */
  lemma {:induction false} MapsThenChecks(s: seq<Wc>, flags: Flags, profile: Profile, norm: Norm)
    requires profile != [] && profile[0].MapTable?
    requires forall j :: 1 <= j < |profile| ==> !profile[j].MapTable? && !profile[j].Nfkc?
    ensures var t := if flags * profile[0].flags == {} then Substituted(profile[0].table, s) else s;
      && (Prepared(s, flags, profile, norm).Done? <==>
            forall k :: 1 <= k < |profile| ==> Passes(profile[k], t, flags, profile))
      && (Prepared(s, flags, profile, norm).Done? ==> Prepared(s, flags, profile, norm) == Done(t))
  {
    hide Passes, Enough, TooSmall, Substituted, Prepared;
    NeverTooSmall(s, flags, profile, norm);
    var t := if flags * profile[0].flags == {} then Substituted(profile[0].table, s) else s;
    FirstStep(s, t, flags, profile, norm);
  }

  /** A profile that normalizes, by composed compatibility forms, and then checks. A caller who asks for no
      normalization is refused by a step without flags; a string that cannot be encoded is refused too. */
  lemma {:induction false} NormalizesThenChecks(s: seq<Wc>, flags: Flags, profile: Profile, norm: Norm)
    requires profile != [] && profile[0].Nfkc?
    requires forall j :: 1 <= j < |profile| ==> !profile[j].MapTable? && !profile[j].Nfkc?
    ensures var r, f, cs := Prepared(s, flags, profile, norm), profile[0].flags, UpToZero(s);
      if flags * f == {} && 0 in flags && f == {} then r == Fails(FlagError)
      else if flags * f == {} && !Text(cs) then r == Fails(NfkcFailed)
      else
        var q := UpToZero(Normal(norm.table, true, true, norm.cc, norm.pairs, cs));
        var t := if flags * f == {} then q else s;
        && (r.Done? <==> forall k :: 1 <= k < |profile| ==> Passes(profile[k], t, flags, profile))
        && (r.Done? ==> r == Done(t))
  {
    hide Passes, Enough, Normal, UpToZero, Text, Prepared;
    NeverTooSmall(s, flags, profile, norm);
    var f, cs := profile[0].flags, UpToZero(s);
    var q := UpToZero(Normal(norm.table, true, true, norm.cc, norm.pairs, cs));
    PreparedFirst(s, flags, profile, norm);
    if flags * f != {} || (Text(cs) && !(0 in flags && f == {})) {
      var t := if flags * f == {} then q else s;
      FirstStep(s, t, flags, profile, norm);
    }
  }

  lemma {:induction false} PreparedFirst(s: seq<Wc>, flags: Flags, profile: Profile, norm: Norm)
    requires profile != []
    ensures var r := StepOf(profile[0], s, Enough(0, s, flags, profile, norm), flags, profile, norm);
      r.Fails? ==> Prepared(s, flags, profile, norm) == r
  {
    hide StepOf, Enough, RunFrom;
    RunFirst(s, Enough(0, s, flags, profile, norm), flags, profile, norm);
  }

  lemma {:induction false} ProhibitRun(i: nat, s: seq<Wc>, max: nat, flags: Flags, profile: Profile, norm: Norm)
    requires forall k :: i <= k < |profile| ==> profile[k].ProhibitTable?
    ensures RunFrom(i, s, max, flags, profile, norm) ==
      if exists k :: i <= k < |profile| && Meets(profile[k].table, s) then Fails(ContainsProhibited) else Done(s)
    decreases |profile| - i
  {
    hide Meets;
    if i < |profile| { ProhibitRun(i + 1, s, max, flags, profile, norm); }
  }

  /** A profile of tables of prohibited characters refuses, as containing one, exactly the strings that
      contain one. */
  lemma {:induction false} ProhibitsOnly(s: seq<Wc>, flags: Flags, profile: Profile, norm: Norm)
    requires forall k :: 0 <= k < |profile| ==> profile[k].ProhibitTable?
    ensures Prepared(s, flags, profile, norm) ==
      if exists k :: 0 <= k < |profile| && Meets(profile[k].table, s) then Fails(ContainsProhibited) else Done(s)
  {
    hide Meets, RunFrom, Enough;
    ProhibitRun(0, s, Enough(0, s, flags, profile, norm), flags, profile, norm);
  }

  // ---- Room in the buffer ---------------------------------------------------------------------------------

  /** The last character that is in the table. */
  lemma {:induction false} LastMet(table: Table, s: seq<Wc>) returns (k: nat)
    requires Meets(table, s)
    ensures k < |s| && In(table, s[k]) && forall j :: k < j < |s| ==> !In(table, s[j])
    decreases |s|
  {
    hide In;
    var n := |s| - 1;
    if In(table, s[n]) { return n; }
    assert Meets(table, s[..n]) by {
      var j :| 0 <= j < |s| && In(table, s[j]);
      assert s[..n][j] == s[j];
    }
    k := LastMet(table, s[..n]);
    assert forall j :: 0 <= j < n ==> s[..n][j] == s[j];
  }

  /** Mapping needs a buffer larger than the mapped string if it changes anything, and none larger than the
      string while its characters are being replaced from left to right. */
  lemma {:induction false} MapRoom(table: Table, s: seq<Wc>, max: nat)
    ensures Meets(table, s) && |Substituted(table, s)| >= max ==> TooSmall(table, s, max)
    ensures (forall k :: 0 <= k <= |s| ==> |Substituted(table, s[..k]) + s[k..]| < max) ==> !TooSmall(table, s, max)
  {
    hide Substituted, In;
    if Meets(table, s) && |Substituted(table, s)| >= max {
      var k := LastMet(table, s);
      SubstitutedStays(table, s, k + 1, |s|);
      assert s[..|s|] == s;
      TooMany(table, s, max, k);
    }
  }

  /** A first step of mapping or normalizing fails for want of room exactly if the mapped string would not fit on
      the way, or the normal form would fill the buffer. */
  lemma {:induction false} RoomForFirst(s: seq<Wc>, max: nat, flags: Flags, profile: Profile, norm: Norm)
    requires profile != [] && Changes(profile[0]) && flags * profile[0].flags == {}
    requires !(0 in flags && profile[0].flags == {})
    ensures var r := RunFrom(0, s, max, flags, profile, norm);
      match profile[0]
      case MapTable(t, _) =>
        if TooSmall(t, s, max) then r == Fails(TooSmallBuffer)
        else r == RunFrom(1, Substituted(t, s), max, flags, profile, norm)
      case _ =>
        Text(UpToZero(s)) ==>
          var q := UpToZero(Normal(norm.table, true, true, norm.cc, norm.pairs, UpToZero(s)));
          if |q| >= max then r == Fails(TooSmallBuffer) else r == RunFrom(1, q, max, flags, profile, norm)
  {
    hide TooSmall, Substituted, Normal, UpToZero, Text;
  }
}
