/** Exactly when fixing zero codes leaves sources that pass the check. */
module FixedCodes {
  import opened Basics
  import opened Ordering
  import opened AssertionCodes
  import opened CodeFixer
  import opened FixedSources

  // ---- The codes that are handed out -------------------------------------------------------------------

  lemma {:induction false} AssignedAt(order: seq<Location>, next: nat, k: nat)
    requires SitesDistinct(order) && k < |order|
    ensures SiteOf(order[k]) in Assigned(order, next)
    ensures Assigned(order, next)[SiteOf(order[k])] == Decimal(next + (|order| - 1 - k))
    decreases |order|
  {
    var n := |order| - 1;
    if k < n {
      AssignedAt(order[..n], next + 1, k);
      assert SiteOf(order[k]) != SiteOf(order[n]);
    }
  }

  lemma DecimalIsCode(n: nat)
    ensures IsCode(Decimal(n)) && IntOf(Decimal(n)) == n
  {
    DecimalRoundTrip(n);
  }

  lemma DecimalInjective(m: nat, n: nat)
    requires m != n
    ensures Decimal(m) != Decimal(n)
  {
    DecimalRoundTrip(m);
    DecimalRoundTrip(n);
  }

  /** Codes handed out are pairwise distinct and not below `next`. */
  lemma AssignedCodesDistinct(order: seq<Location>, next: nat, a: Location, b: Location)
    requires SitesDistinct(order) && a in order && b in order && a != b
    ensures SiteOf(a) in Assigned(order, next) && SiteOf(b) in Assigned(order, next)
    ensures Assigned(order, next)[SiteOf(a)] != Assigned(order, next)[SiteOf(b)]
  {
    var i :| 0 <= i < |order| && order[i] == a;
    var j :| 0 <= j < |order| && order[j] == b;
    AssignedAt(order, next, i);
    AssignedAt(order, next, j);
    DecimalInjective(next + (|order| - 1 - i), next + (|order| - 1 - j));
  }

  lemma AssignedCodesFresh(order: seq<Location>, next: nat, a: Location)
    requires SitesDistinct(order) && a in order
    ensures SiteOf(a) in Assigned(order, next)
    ensures var code := Assigned(order, next)[SiteOf(a)];
            IsCode(code) && next <= IntOf(code) < next + |order|
  {
    var i :| 0 <= i < |order| && order[i] == a;
    AssignedAt(order, next, i);
    DecimalIsCode(next + (|order| - 1 - i));
  }

  /** Later in the sources: in a later file, or further on in the same one. */
  ghost predicate StandsLater(a: Location, b: Location) {
    Precedes(b.file, a.file) || (a.file == b.file && a.offset > b.offset)
  }

  lemma LaterIsGreater(a: Location, b: Location)
    requires StandsLater(a, b)
    ensures !LocationLe(a, b)
  {
    if Precedes(b.file, a.file) {
      PrecedesIsStrict(b.file, a.file);
      StringLeTotal(a.file, b.file);
    }
  }

  lemma LaterIsBehind(errors: seq<Location>, i: nat, j: nat)
    requires AllCodes(errors) && i < |Ascending(errors)| && j < |Ascending(errors)|
    requires StandsLater(Ascending(errors)[i], Ascending(errors)[j])
    ensures j < i
  {
    var order := Ascending(errors);
    LocationLeIsPreorder();
    SortSorts(Dedupe(Zeros(errors)), LocationLe);
    LaterIsGreater(order[i], order[j]);
  }

  /** The number handed out at a site. */
  ghost predicate IsHanded(fixes: Edits, at: Site, n: nat) {
    at in fixes && IsCode(fixes[at]) && IntOf(fixes[at]) == n
  }

  lemma HandedAt(order: seq<Location>, next: nat, k: nat)
    requires SitesDistinct(order) && k < |order|
    ensures IsHanded(Assigned(order, next), SiteOf(order[k]), next + (|order| - 1 - k))
  {
    AssignedAt(order, next, k);
    DecimalIsCode(next + (|order| - 1 - k));
  }

  /** Codes are handed out from the back: of two errors, the one that stands later gets the smaller code. */
  lemma LaterGetsSmaller(errors: seq<Location>, order: seq<Location>, next: nat, a: Location, b: Location)
    requires AllCodes(errors) && order == Ascending(errors) && SitesDistinct(order)
    requires a in order && b in order && StandsLater(a, b)
    ensures exists m, n :: m < n && IsHanded(Assigned(order, next), SiteOf(a), m) &&
                           IsHanded(Assigned(order, next), SiteOf(b), n)
  {
    var i: nat :| i < |order| && order[i] == a;
    var j: nat :| j < |order| && order[j] == b;
    LaterIsBehind(errors, i, j);
    HandedAt(order, next, i);
    HandedAt(order, next, j);
  }

  lemma {:induction false} AssignedAreCodes(order: seq<Location>, next: nat)
    ensures forall at :: at in Assigned(order, next) ==> IsCode(Assigned(order, next)[at])
    decreases |order|
  {
    if order != [] {
      AssignedAreCodes(order[..|order| - 1], next + 1);
    }
  }

  // ---- What a replaced first digit makes of a zero code -------------------------------------------------

  /** A number with zeros written behind it. */
  function Padded(n: nat, zeros: nat): nat {
    if zeros == 0 then n else 10 * Padded(n, zeros - 1)
  }

  /** A code that the fixer takes for a zero, however it is spelled. */
  predicate IsZero(code: string) {
    IsCode(code) && IntOf(code) == 0
  }

  lemma {:induction false} ZeroDigits(s: string)
    requires (forall i :: 0 <= i < |s| ==> IsDigit(s[i])) && IntOf(s) == 0
    ensures forall i :: 0 <= i < |s| ==> s[i] == '0'
  {
    if s != [] {
      ZeroDigits(s[..|s| - 1]);
    }
  }

  lemma {:induction false} PaddedAtLeast(n: nat, zeros: nat)
    ensures Padded(n, zeros) >= n
  {
    if zeros > 0 {
      PaddedAtLeast(n, zeros - 1);
    }
  }

  lemma DecimalTenfold(m: nat)
    requires m > 0
    ensures Decimal(10 * m) == Decimal(m) + ['0']
  {
    assert (10 * m) / 10 == m && (10 * m) % 10 == 0;
    assert Digit(0) == '0';
  }

  lemma {:induction false} DecimalPadded(n: nat, zeros: string)
    requires n > 0 && forall i :: 0 <= i < |zeros| ==> zeros[i] == '0'
    ensures Decimal(n) + zeros == Decimal(Padded(n, |zeros|))
  {
    if zeros == [] {
      assert Decimal(n) + zeros == Decimal(n);
    } else {
      var k := |zeros| - 1;
      DecimalPadded(n, zeros[..k]);
      PaddedAtLeast(n, k);
      DecimalTenfold(Padded(n, k));
      assert Decimal(n) + zeros == Decimal(n) + zeros[..k] + ['0'];
    }
  }

  /** Only the first digit is replaced: every further zero multiplies the code that was handed out by ten. */
  lemma ReplacedDigit(code: string, handed: nat)
    requires IsZero(code) && handed > 0
    ensures Decimal(handed) + code[1..] == Decimal(Padded(handed, |code| - 1))
    ensures Decimal(handed) + code[1..] == Decimal(handed) <==> code == "0"
  {
    ZeroDigits(code);
    DecimalPadded(handed, code[1..]);
    assert |code| == 1 ==> code == "0" && Decimal(handed) + [] == Decimal(handed);
  }

  /** The number shown in place of the k-th repaired code. */
  function ShownValue(order: seq<Location>, next: nat, k: nat): nat
    requires k < |order| && order[k].code != []
  {
    Padded(next + (|order| - 1 - k), |order[k].code| - 1)
  }

  ghost predicate ZeroCodes(order: seq<Location>) {
    forall k :: 0 <= k < |order| ==> IsZero(order[k].code)
  }

  lemma NewCodeAt(order: seq<Location>, next: nat, k: nat)
    requires ZeroCodes(order) && SitesDistinct(order) && next > 0 && k < |order|
    ensures NewCode(order[k], Assigned(order, next)) == Decimal(ShownValue(order, next, k))
    ensures ShownValue(order, next, k) >= next
  {
    var handed, p := next + (|order| - 1 - k), |order[k].code| - 1;
    AssignedAt(order, next, k);
    ReplacedDigit(order[k].code, handed);
    PaddedAtLeast(handed, p);
  }

  // ---- The faults that are left --------------------------------------------------------------------------

  lemma {:induction false} ExcessReported(locs: seq<Location>, loc: Location)
    requires AllCodes(locs) && loc in locs && IntOf(loc.code) > MAXIMUM_CODE
    ensures exists e :: e in ErrorsDuring(locs) && e.code == loc.code
    decreases |locs|
  {
    var n := |locs| - 1;
    assert locs == locs[..n] + [locs[n]] && locs[n] in locs && AllCodes(locs[..n]);
    if loc in locs[..n] {
      ExcessReported(locs[..n], loc);
      var e :| e in ErrorsDuring(locs[..n]) && e.code == loc.code;
      assert e in ErrorsDuring(locs);
    } else {
      var new' := NewErrors(locs[..n], loc);
      assert loc in new' && loc in ErrorsDuring(locs);
    }
  }

  lemma RepeatsCount(locs: seq<Location>, i: nat, j: nat)
    requires i < j < |locs| && locs[i].code == locs[j].code
    ensures |WithCode(locs, locs[i].code)| >= 2
    decreases |locs|
  {
    var n := |locs| - 1;
    var code := locs[i].code;
    if j < n {
      RepeatsCount(locs[..n], i, j);
    } else {
      WithCodeMembers(locs[..n], code);
      assert locs[..n][i] in WithCode(locs[..n], code);
    }
  }

  /** An error is a zero code, exceeds the maximum, or repeats. */
  ghost predicate HasCause(locs: seq<Location>, e: Location)
    requires IsCode(e.code)
  {
    || e.code == "0"
    || IntOf(e.code) > MAXIMUM_CODE
    || exists i, j :: 0 <= i < j < |locs| && locs[i].code == locs[j].code == e.code
  }

  lemma HasCauseStill(locs: seq<Location>, loc: Location, e: Location)
    requires IsCode(e.code) && HasCause(locs, e)
    ensures HasCause(locs + [loc], e)
  {
    if exists i, j :: 0 <= i < j < |locs| && locs[i].code == locs[j].code == e.code {
      var i, j :| 0 <= i < j < |locs| && locs[i].code == locs[j].code == e.code;
      assert (locs + [loc])[i].code == (locs + [loc])[j].code == e.code;
    }
  }

  lemma NewErrorsHaveCauses(before: seq<Location>, loc: Location, e: Location)
    requires IsCode(loc.code) && e in NewErrors(before, loc)
    ensures e.code == loc.code && HasCause(before + [loc], e)
  {
    var same := WithCode(before, loc.code);
    WithCodeMembers(before, loc.code);
    if same != [] {
      assert same[0] in same;
      var i :| 0 <= i < |before| && before[i] == same[0];
      assert (before + [loc])[i].code == (before + [loc])[|before|].code == e.code;
    }
  }

  lemma {:induction false} ErrorsHaveCauses(locs: seq<Location>, e: Location)
    requires AllCodes(locs) && IsCode(e.code) && e in ErrorsDuring(locs)
    ensures HasCause(locs, e)
    decreases |locs|
  {
    var n := |locs| - 1;
    assert locs == locs[..n] + [locs[n]] && locs[n] in locs && AllCodes(locs[..n]);
    if e in ErrorsDuring(locs[..n]) {
      ErrorsHaveCauses(locs[..n], e);
      HasCauseStill(locs[..n], locs[n], e);
    } else {
      NewErrorsHaveCauses(locs[..n], locs[n], e);
    }
  }

  lemma ZeroIsZero()
    ensures IsCode("0") && IntOf("0") == 0
  {
    assert "0"[..0] == "";
  }

  // ---- The list of edits ----------------------------------------------------------------------------------

  lemma SortKeepsDistinct<T>(s: seq<T>, le: (T, T) -> bool)
    requires Distinct(s)
    ensures Distinct(Sort(s, le))
  {
    var r := Sort(s, le);
    SortPermutes(s, le);
    forall i, j | 0 <= i < j < |r| ensures r[i] != r[j] {
      if r[i] == r[j] {
        TwiceIn(r, i, j);
        OnceIn(s, r[i]);
      }
    }
  }

  lemma TwiceIn<T>(s: seq<T>, i: nat, j: nat)
    requires i < j < |s| && s[i] == s[j]
    ensures multiset(s)[s[i]] >= 2
  {
    assert s == s[..j] + [s[j]] + s[j + 1..];
    assert s[..j][i] in multiset(s[..j]);
  }

  lemma {:induction false} OnceIn<T>(s: seq<T>, x: T)
    requires Distinct(s)
    ensures multiset(s)[x] <= 1
  {
    if s != [] {
      var n := |s| - 1;
      OnceIn(s[..n], x);
      assert s == s[..n] + [s[n]];
      assert x == s[n] ==> x !in s[..n];
    }
  }

  lemma ErrorsAreCodes(locs: seq<Location>)
    requires AllCodes(locs)
    ensures AllCodes(Errors(locs))
  {
    ErrorsAreLocations(locs);
    WithCodeMembers(locs, "0");
  }

  /** What the fixer edits when the check has found its errors, front to back. */
  function Repairs(locs: seq<Location>): seq<Location>
    requires AllCodes(locs)
  {
    ErrorsAreCodes(locs);
    Ascending(Errors(locs))
  }

  lemma RepairsAreZeroErrors(locs: seq<Location>)
    requires AllCodes(locs)
    ensures var order := Repairs(locs);
            && Distinct(order) && ZeroCodes(order)
            && forall loc :: loc in order <==> loc in Errors(locs) && IsZero(loc.code)
    ensures forall loc :: loc in Errors(locs) ==> loc in locs
  {
    ErrorsAreCodes(locs);
    ErrorsAreLocations(locs);
    WithCodeMembers(locs, "0");
    AscendingSites(Errors(locs));
    SortKeepsDistinct(Dedupe(Zeros(Errors(locs))), LocationLe);
    forall k | 0 <= k < |Repairs(locs)| ensures IsZero(Repairs(locs)[k].code) {
      assert Repairs(locs)[k] in Repairs(locs);
    }
  }

  lemma BothReported(locs: seq<Location>, i: nat, j: nat)
    requires AllCodes(locs) && i < j < |locs| && locs[i].code == locs[j].code
    ensures locs[i] in Errors(locs) && locs[j] in Errors(locs)
  {
    RepeatsCount(locs, i, j);
    RepeatedCodesReported(locs, locs[i].code);
    WithCodeMembers(locs, locs[i].code);
    assert locs[i] in WithCode(locs, locs[i].code) && locs[j] in WithCode(locs, locs[i].code);
  }

  lemma ReadAreCodes(files: Files, locs: seq<Location>)
    requires ReadFrom(files, locs)
    ensures AllCodes(locs)
  {}

  lemma SameCodeReported(locs: seq<Location>, a: Location, b: Location)
    requires AllCodes(locs) && a in locs && b in locs && a != b && a.code == b.code
    ensures b in Errors(locs)
  {
    var i :| 0 <= i < |locs| && locs[i] == a;
    var j :| 0 <= j < |locs| && locs[j] == b;
    if i < j {
      BothReported(locs, i, j);
    } else {
      BothReported(locs, j, i);
    }
  }

  /** Whatever stands where something is repaired is repaired too. */
  lemma SharedSite(files: Files, locs: seq<Location>, l: Location, loc: Location)
    requires ReadFrom(files, locs) && AllCodes(locs) && l in Repairs(locs) && l in locs && loc in locs
    requires SiteOf(l) == SiteOf(loc)
    ensures loc in Repairs(locs)
  {
    if l != loc {
      OneCodePerSite(files, l, loc);
      SameCodeReported(locs, l, loc);
      RepairsAreZeroErrors(locs);
    }
  }

  /** A location that is not repaired lies at no edited site. */
  lemma OthersUntouched(files: Files, locs: seq<Location>, next: nat, loc: Location)
    requires ReadFrom(files, locs) && AllCodes(locs) && loc in locs && loc !in Repairs(locs)
    ensures NewCode(loc, Assigned(Repairs(locs), next)) == loc.code
  {
    RepairsAreZeroErrors(locs);
    forall l | l in Repairs(locs) ensures SiteOf(l) != SiteOf(loc) {
      if SiteOf(l) == SiteOf(loc) {
        SharedSite(files, locs, l, loc);
      }
    }
    AssignedAvoids(Repairs(locs), next, SiteOf(loc));
  }

  lemma {:induction false} AssignedSites(order: seq<Location>, next: nat, at: Site)
    requires at in Assigned(order, next)
    ensures exists loc :: loc in order && SiteOf(loc) == at
  {
    if forall loc :: loc in order ==> SiteOf(loc) != at {
      AssignedAvoids(order, next, at);
    }
  }

  lemma RepairsEditCodes(files: Files, locs: seq<Location>, next: nat)
    requires ReadFrom(files, locs) && AllCodes(locs)
    ensures EditsCodes(files, Assigned(Repairs(locs), next))
  {
    var order := Repairs(locs);
    var fixes := Assigned(order, next);
    RepairsAreZeroErrors(locs);
    AssignedAreCodes(order, next);
    forall at | at in fixes
      ensures at.file in files && at.offset < |files[at.file]| && IsDigit(files[at.file][at.offset])
      ensures at.offset > 0 ==> !IsDigit(files[at.file][at.offset - 1])
    {
      AssignedSites(order, next, at);
      var loc :| loc in order && SiteOf(loc) == at;
      assert Shows(files, loc);
      RunOfDigits(files[loc.file], loc.offset, loc.code, loc.offset);
    }
  }

  // ---- Main results ---------------------------------------------------------------------------------------

  /** The next code is a new one, as `get_next_code` finds it. */
  ghost predicate IsFree(next: nat, locs: seq<Location>)
    requires AllCodes(locs)
  {
    next > 0 && forall loc :: loc in locs ==> IntOf(loc.code) < next
  }

  lemma RepairsEditable(files: Files, locs: seq<Location>)
    requires ReadFrom(files, locs) && AllCodes(locs)
    ensures forall loc :: loc in Repairs(locs) ==> IsEditable(files, loc)
  {
    RepairsAreZeroErrors(locs);
    forall loc | loc in Repairs(locs) ensures IsEditable(files, loc) {
      FirstDigit(files, loc);
      ZeroDigits(loc.code);
    }
  }

  /** The fix runs through exactly when no two repairs share a site. */
  lemma FixRunsThrough(files: Files, locs: seq<Location>, next: nat)
    requires ReadFrom(files, locs) && AllCodes(locs) && next > 0
    ensures var order := Repairs(locs);
            FixAll(files, order, next) ==
            if SitesDistinct(order) then Some(Patched(files, Assigned(order, next))) else None
  {
    ErrorsAreCodes(locs);
    RepairsEditable(files, locs);
    FixingIsSimultaneous(files, Errors(locs), next);
  }

  /** The fixed sources show every location, moved and with its new code. */
  lemma FixedSourcesShowNewCodes(files: Files, locs: seq<Location>, next: nat)
    requires ReadFrom(files, locs) && AllCodes(locs)
    ensures var fixes := Assigned(Repairs(locs), next);
            ReadFrom(Patched(files, fixes), Reread(files, locs, fixes))
  {
    var fixes := Assigned(Repairs(locs), next);
    RepairsEditCodes(files, locs, next);
    forall i | 0 <= i < |locs| ensures Shows(Patched(files, fixes), Reread(files, locs, fixes)[i]) {
      assert locs[i] in locs;
      ShownAfterFix(files, locs[i], fixes);
    }
  }

  ghost predicate OnlyZeroFaults(locs: seq<Location>)
    requires AllCodes(locs)
  {
    forall loc :: loc in Errors(locs) ==> IsZero(loc.code)
  }

  /** No two of the locations to be repaired stand at the same place. */
  ghost predicate RepairSitesDistinct(locs: seq<Location>)
    requires AllCodes(locs)
  {
    forall i, j :: 0 <= i < j < |locs| && locs[i] in Repairs(locs) && locs[j] in Repairs(locs) ==>
      SiteOf(locs[i]) != SiteOf(locs[j])
  }

  /** The numbers that will be shown are within the maximum and pairwise different. */
  ghost predicate NewCodesFit(order: seq<Location>, next: nat)
    requires ZeroCodes(order)
  {
    && (forall k :: 0 <= k < |order| ==> ShownValue(order, next, k) <= MAXIMUM_CODE)
    && (forall k, m :: 0 <= k < m < |order| ==> ShownValue(order, next, k) != ShownValue(order, next, m))
  }

  /** The fix runs through and the check passes on what the fixed sources then show. */
  ghost predicate FixSucceeds(files: Files, locs: seq<Location>, next: nat)
    requires ReadFrom(files, locs) && AllCodes(locs)
  {
    var order := Repairs(locs);
    var fixed := Reread(files, locs, Assigned(order, next));
    FixAll(files, order, next).Some? && AllCodes(fixed) && Errors(fixed) == []
  }

  lemma DifferentSites(locs: seq<Location>, a: Location, b: Location)
    requires AllCodes(locs) && RepairSitesDistinct(locs) && a != b
    requires a in Repairs(locs) && b in Repairs(locs) && a in locs && b in locs
    ensures SiteOf(a) != SiteOf(b)
  {
    var i :| 0 <= i < |locs| && locs[i] == a;
    var j :| 0 <= j < |locs| && locs[j] == b;
    assert i < j || j < i;
  }

  lemma RepairSites(locs: seq<Location>)
    requires AllCodes(locs) && RepairSitesDistinct(locs)
    ensures SitesDistinct(Repairs(locs))
  {
    var order := Repairs(locs);
    RepairsAreZeroErrors(locs);
    forall i, j | 0 <= i < j < |order| ensures SiteOf(order[i]) != SiteOf(order[j]) {
      assert order[i] in order && order[j] in order;
      DifferentSites(locs, order[i], order[j]);
    }
  }

  lemma ZeroFaultsWithin(locs: seq<Location>, loc: Location)
    requires AllCodes(locs) && OnlyZeroFaults(locs) && loc in locs
    ensures IntOf(loc.code) <= MAXIMUM_CODE
  {
    assert forall e :: e in ErrorsDuring(locs) ==> e in Errors(locs);
    if IntOf(loc.code) > MAXIMUM_CODE {
      ExcessReported(locs, loc);
    }
  }

  /** The code shown for one location after the fix: fresh if repaired, unchanged and sound if not. */
  lemma FixedCodeIsSound(files: Files, locs: seq<Location>, next: nat, loc: Location)
    requires ReadFrom(files, locs) && AllCodes(locs) && IsFree(next, locs) && loc in locs
    requires OnlyZeroFaults(locs) && RepairSitesDistinct(locs)
    requires ZeroCodes(Repairs(locs)) && NewCodesFit(Repairs(locs), next)
    ensures var code := NewCode(loc, Assigned(Repairs(locs), next));
            && IsCode(code) && code != "0" && IntOf(code) <= MAXIMUM_CODE
            && (loc in Repairs(locs) <==> IntOf(code) >= next)
  {
    var order := Repairs(locs);
    ZeroIsZero();
    RepairsAreZeroErrors(locs);
    if loc in order {
      var k :| 0 <= k < |order| && order[k] == loc;
      RepairSites(locs);
      NewCodeAt(order, next, k);
      DecimalIsCode(ShownValue(order, next, k));
    } else {
      OthersUntouched(files, locs, next, loc);
      if loc.code == "0" {
        ZeroCodesReported(locs, loc);
      }
      ZeroFaultsWithin(locs, loc);
    }
  }

  lemma FixedCodesDiffer(files: Files, locs: seq<Location>, next: nat, i: nat, j: nat)
    requires ReadFrom(files, locs) && AllCodes(locs) && IsFree(next, locs) && i < j < |locs|
    requires OnlyZeroFaults(locs) && RepairSitesDistinct(locs)
    requires ZeroCodes(Repairs(locs)) && NewCodesFit(Repairs(locs), next)
    ensures locs[i].code != [] && locs[j].code != []
    ensures NewCode(locs[i], Assigned(Repairs(locs), next)) != NewCode(locs[j], Assigned(Repairs(locs), next))
  {
    var order := Repairs(locs);
    assert locs[i] in locs && locs[j] in locs;
    FixedCodeIsSound(files, locs, next, locs[i]);
    FixedCodeIsSound(files, locs, next, locs[j]);
    RepairsAreZeroErrors(locs);
    RepairSites(locs);
    if locs[i] in order && locs[j] in order {
      var k :| 0 <= k < |order| && order[k] == locs[i];
      var m :| 0 <= m < |order| && order[m] == locs[j];
      assert k != m;
      NewCodeAt(order, next, k);
      NewCodeAt(order, next, m);
      DecimalInjective(ShownValue(order, next, k), ShownValue(order, next, m));
    } else if locs[i] !in order && locs[j] !in order {
      OthersUntouched(files, locs, next, locs[i]);
      OthersUntouched(files, locs, next, locs[j]);
      if locs[i].code == locs[j].code {
        BothReported(locs, i, j);
      }
    }
  }

  lemma FitIsEnough(files: Files, locs: seq<Location>, next: nat)
    requires ReadFrom(files, locs) && AllCodes(locs) && IsFree(next, locs)
    requires OnlyZeroFaults(locs) && RepairSitesDistinct(locs)
    requires ZeroCodes(Repairs(locs)) && NewCodesFit(Repairs(locs), next)
    ensures FixSucceeds(files, locs, next)
  {
    var fixes := Assigned(Repairs(locs), next);
    var fixed := Reread(files, locs, fixes);
    FixedSourcesShowNewCodes(files, locs, next);
    RepairSites(locs);
    FixRunsThrough(files, locs, next);
    ReadAreCodes(Patched(files, fixes), fixed);
    CheckPassesExactly(fixed);
    forall i | 0 <= i < |fixed|
      ensures fixed[i].code != "0" && IsCode(fixed[i].code) && IntOf(fixed[i].code) <= MAXIMUM_CODE
    {
      assert locs[i] in locs;
      FixedCodeIsSound(files, locs, next, locs[i]);
    }
    forall i, j | 0 <= i < j < |fixed| ensures fixed[i].code != fixed[j].code {
      FixedCodesDiffer(files, locs, next, i, j);
    }
  }

  /** What the check says of the fixed sources, entry by entry. */
  ghost predicate NewCodesPass(locs: seq<Location>, fixes: Edits)
    requires AllCodes(locs)
  {
    && (forall i :: 0 <= i < |locs| ==> locs[i] in locs && NewCodeWithin(locs[i], fixes))
    && (forall i, j :: 0 <= i < j < |locs| ==>
          locs[i] in locs && locs[j] in locs && NewCode(locs[i], fixes) != NewCode(locs[j], fixes))
  }

  ghost predicate NewCodeWithin(loc: Location, fixes: Edits)
    requires IsCode(loc.code)
  {
    IsCode(NewCode(loc, fixes)) && IntOf(NewCode(loc, fixes)) <= MAXIMUM_CODE
  }

  lemma SuccessPasses(files: Files, locs: seq<Location>, next: nat)
    requires ReadFrom(files, locs) && AllCodes(locs) && FixSucceeds(files, locs, next)
    ensures NewCodesPass(locs, Assigned(Repairs(locs), next))
  {
    var fixes := Assigned(Repairs(locs), next);
    var fixed := Reread(files, locs, fixes);
    CheckPassesExactly(fixed);
    forall i | 0 <= i < |locs| ensures locs[i] in locs && NewCodeWithin(locs[i], fixes) {
      assert fixed[i] in fixed;
    }
    forall i, j | 0 <= i < j < |locs|
      ensures locs[i] in locs && locs[j] in locs && NewCode(locs[i], fixes) != NewCode(locs[j], fixes)
    {
      assert fixed[i].code != fixed[j].code;
    }
  }

  lemma PassingNeedsZeroFaults(files: Files, locs: seq<Location>, next: nat)
    requires ReadFrom(files, locs) && AllCodes(locs) && NewCodesPass(locs, Assigned(Repairs(locs), next))
    ensures OnlyZeroFaults(locs)
  {
    var fixes := Assigned(Repairs(locs), next);
    RepairsAreZeroErrors(locs);
    ZeroIsZero();
    forall e | e in Errors(locs) ensures IsZero(e.code) {
      ErrorsAreCodes(locs);
      if IntOf(e.code) != 0 {
        ErrorCause(locs, e);
        if IntOf(e.code) > MAXIMUM_CODE {
          var i :| 0 <= i < |locs| && locs[i] == e;
          OthersUntouched(files, locs, next, locs[i]);
        } else {
          var i, j :| 0 <= i < j < |locs| && locs[i].code == locs[j].code == e.code;
          assert locs[i] in locs && locs[j] in locs;
          OthersUntouched(files, locs, next, locs[i]);
          OthersUntouched(files, locs, next, locs[j]);
        }
      }
    }
  }

  lemma ErrorCause(locs: seq<Location>, e: Location)
    requires AllCodes(locs) && IsCode(e.code) && e in Errors(locs)
    ensures HasCause(locs, e)
  {
    WithCodeMembers(locs, "0");
    if e in ErrorsDuring(locs) {
      ErrorsHaveCauses(locs, e);
    } else {
      assert e in WithCode(locs, "0");
    }
  }

  lemma PassingNeedsSites(files: Files, locs: seq<Location>, next: nat)
    requires ReadFrom(files, locs) && AllCodes(locs) && NewCodesPass(locs, Assigned(Repairs(locs), next))
    ensures RepairSitesDistinct(locs)
  {
    forall i, j | 0 <= i < j < |locs| && locs[i] in Repairs(locs) && locs[j] in Repairs(locs)
      ensures SiteOf(locs[i]) != SiteOf(locs[j])
    {
      assert locs[i] in locs && locs[j] in locs;
      if SiteOf(locs[i]) == SiteOf(locs[j]) {
        OneCodePerSite(files, locs[i], locs[j]);
      }
    }
  }

  lemma PassingNeedsFit(files: Files, locs: seq<Location>, next: nat)
    requires ReadFrom(files, locs) && AllCodes(locs) && next > 0
    requires NewCodesPass(locs, Assigned(Repairs(locs), next)) && RepairSitesDistinct(locs)
    requires ZeroCodes(Repairs(locs))
    ensures NewCodesFit(Repairs(locs), next)
  {
    var order := Repairs(locs);
    RepairsAreZeroErrors(locs);
    RepairSites(locs);
    forall k | 0 <= k < |order| ensures ShownValue(order, next, k) <= MAXIMUM_CODE {
      assert order[k] in order;
      var i :| 0 <= i < |locs| && locs[i] == order[k];
      NewCodeAt(order, next, k);
      DecimalIsCode(ShownValue(order, next, k));
      assert NewCodeWithin(locs[i], Assigned(order, next));
    }
    forall k, m | 0 <= k < m < |order| ensures ShownValue(order, next, k) != ShownValue(order, next, m) {
      assert order[k] in order && order[m] in order;
      var i :| 0 <= i < |locs| && locs[i] == order[k];
      var j :| 0 <= j < |locs| && locs[j] == order[m];
      NewCodeAt(order, next, k);
      NewCodeAt(order, next, m);
      assert i != j;
    }
  }

  /** The fix runs through and leaves sources that pass the check exactly when every error is a zero code, they
      stand at different places, and the numbers that the replaced digits make are within the maximum and differ. */
  lemma FixedCodesPass(files: Files, locs: seq<Location>, next: nat)
    requires ReadFrom(files, locs) && AllCodes(locs) && IsFree(next, locs)
    ensures ZeroCodes(Repairs(locs))
    ensures FixSucceeds(files, locs, next) <==>
            OnlyZeroFaults(locs) && RepairSitesDistinct(locs) && NewCodesFit(Repairs(locs), next)
  {
    RepairsAreZeroErrors(locs);
    if FixSucceeds(files, locs, next) {
      SuccessPasses(files, locs, next);
      PassingNeedsZeroFaults(files, locs, next);
      PassingNeedsSites(files, locs, next);
      PassingNeedsFit(files, locs, next);
    } else if OnlyZeroFaults(locs) && RepairSitesDistinct(locs) && NewCodesFit(Repairs(locs), next) {
      FitIsEnough(files, locs, next);
    }
  }

  /** Zero codes spelled "0" show the codes handed out, so only the maximum matters. */
  lemma PlainZerosFit(order: seq<Location>, next: nat)
    requires ZeroCodes(order) && forall k :: 0 <= k < |order| ==> order[k].code == "0"
    ensures NewCodesFit(order, next) <==> order == [] || next + |order| - 1 <= MAXIMUM_CODE
  {
    assert forall k :: 0 <= k < |order| ==> ShownValue(order, next, k) == next + (|order| - 1 - k);
    if order != [] {
      assert ShownValue(order, next, 0) == next + |order| - 1;
    }
  }

  lemma {:induction false} PaddedLess(a: nat, b: nat, m: nat, n: nat)
    requires m < n && a < 10 * b
    ensures Padded(a, m) < Padded(b, n)
  {
    if m > 0 {
      PaddedLess(a, b, m - 1, n - 1);
    } else {
      PaddedAtLeast(b, n - 1);
    }
  }

  lemma {:induction false} PaddedInjective(a: nat, b: nat, n: nat)
    requires a != b
    ensures Padded(a, n) != Padded(b, n)
  {
    if n > 0 {
      PaddedInjective(a, b, n - 1);
    }
  }

  /** Codes less than tenfold apart do not meet by differing numbers of zeros behind them. */
  lemma PaddedDiffer(a: nat, b: nat, m: nat, n: nat)
    requires a < 10 * b && b < 10 * a && a != b
    ensures Padded(a, m) != Padded(b, n)
  {
    if m < n {
      PaddedLess(a, b, m, n);
    } else if n < m {
      PaddedLess(b, a, n, m);
    } else {
      PaddedInjective(a, b, m);
    }
  }

  /** Unless there are nine times as many repairs as the next code, spelling and maximum alone decide. */
  lemma FewRepairsDiffer(order: seq<Location>, next: nat)
    requires ZeroCodes(order) && |order| <= 9 * next
    ensures NewCodesFit(order, next) <==> forall k :: 0 <= k < |order| ==> ShownValue(order, next, k) <= MAXIMUM_CODE
  {
    forall k, m | 0 <= k < m < |order| ensures ShownValue(order, next, k) != ShownValue(order, next, m) {
      var a, b := next + (|order| - 1 - k), next + (|order| - 1 - m);
      PaddedDiffer(a, b, |order[k].code| - 1, |order[m].code| - 1);
    }
  }

  lemma TwoErrors(a: Location, b: Location)
    requires IsZero(a.code) && a.code == b.code != "0"
    ensures AllCodes([a, b]) && Errors([a, b]) == [a, b]
  {
    var one, two := [a], [a, b];
    assert one[..0] == [] && two[..1] == one;
    assert WithCode(one, "0") == [] + [];
    assert WithCode(two, "0") == WithCode(one, "0") + [];
    assert WithCode(one, a.code) == [] + [a];
    assert ErrorsDuring(one) == [];
    assert ErrorsDuring(two) == [] + [a, b];
  }

  lemma TwoZeros(a: Location, b: Location)
    requires IsZero(a.code) && IsZero(b.code)
    ensures AllCodes([a, b]) && Zeros([a, b]) == [a, b]
  {
    var one, two := [a], [a, b];
    assert one[..0] == [] && two[..1] == one;
    assert Zeros(one) == [] + [a];
    assert Zeros(two) == [a] + [b];
  }

  lemma TwoDistinct(a: Location, b: Location)
    requires a != b
    ensures Dedupe([a, b]) == [a, b]
  {
    var one, two := [a], [a, b];
    assert one[..0] == [] && two[..1] == one;
    assert Dedupe(one) == [] + [a];
    assert Dedupe(two) == [a] + [b];
  }

  lemma TwoSorted(a: Location, b: Location)
    requires LocationLe(a, b)
    ensures Sort([a, b], LocationLe) == [a, b]
  {
    var one, two := [a], [a, b];
    assert one[..0] == [] && two[..1] == one;
    assert Sort(one, LocationLe) == Insert([], a, LocationLe);
    assert Sort(two, LocationLe) == Insert([a], b, LocationLe);
  }

  lemma TwoRepairs(a: Location, b: Location)
    requires IsZero(a.code) && IsZero(b.code) && a != b && LocationLe(a, b)
    ensures AllCodes([a, b]) && Ascending([a, b]) == [a, b]
  {
    TwoZeros(a, b);
    TwoDistinct(a, b);
    TwoSorted(a, b);
  }

  lemma TwoEdits(files: Files, a: Location, b: Location, next: nat)
    requires IsEditable(files, b) && IsEditable(Edit(files, b, next), a)
    ensures FixAll(files, [a, b], next) == Some(Edit(Edit(files, b, next), a, next + 1))
  {
    var one, two := [a], [a, b];
    assert one[..0] == [] && two[..1] == one;
    var half := Edit(files, b, next);
    assert FixAll(files, two, next) == FixAll(half, one, next + 1);
    assert FixAll(half, one, next + 1) == FixAll(Edit(half, a, next + 1), [], next + 2);
  }

  lemma EditOneDigit(files: Files, loc: Location, text: string, code: nat, after: string)
    requires loc.file in files && files[loc.file] == text && IsEditable(files, loc) && code < 10
    requires after == text[loc.offset := Digit(code)]
    ensures Edit(files, loc, code) == files[loc.file := after]
  {
    assert text[..loc.offset] + Decimal(code) + text[loc.offset + 1..] == after;
    assert after + [] == after;
  }

  lemma DoubleZeroIsZero()
    ensures IsZero("00")
  {
    ZeroIsZero();
    assert "00"[..1] == "0";
  }

  lemma DoubleZerosShown(f: string, a: Location, b: Location)
    requires SiteOf(a) == Site(f, 0) && SiteOf(b) == Site(f, 3) && a.code == b.code == "00"
    ensures ReadFrom(map[f := "00 00"], [a, b])
  {
    var text := "00 00";
    assert text[0..2] == "00" && text[3..5] == "00";
    assert ShowsAt(text, 0, "00") && ShowsAt(text, 3, "00");
  }

  /** "00" is a zero error too when it repeats: its second digit stays behind the code handed out. */
  lemma DoubleZerosShowTenfold(f: string, a: Location, b: Location)
    requires a == Location(f, 0, a.lines, "00") && b == Location(f, 3, b.lines, "00")
    ensures ReadFrom(map[f := "00 00"], [a, b]) && AllCodes([a, b])
    ensures Errors([a, b]) == [a, b] && Repairs([a, b]) == [a, b]
    ensures FixAll(map[f := "00 00"], [a, b], 7) == Some(map[f := "80 70"])
  {
    DoubleZerosShown(f, a, b);
    DoubleZeroIsZero();
    TwoErrors(a, b);
    TwoRepairs(a, b);
    DoubleZeroEdits(f, a, b);
  }

  lemma DoubleZeroEdits(f: string, a: Location, b: Location)
    requires SiteOf(a) == Site(f, 0) && SiteOf(b) == Site(f, 3)
    ensures FixAll(map[f := "00 00"], [a, b], 7) == Some(map[f := "80 70"])
  {
    var text, half, done := "00 00", "00 70", "80 70";
    var files: Files := map[f := text];
    EditOneDigit(files, b, text, 7, half);
    EditOneDigit(files[f := half], a, half, 8, done);
    TwoEdits(files, a, b, 7);
    assert files[f := half][f := done] == map[f := done];
  }
}
