/** What the assertion locations look like in the sources, before and after their codes are replaced. */
module FixedSources {
  import opened AssertionCodes
  import opened CodeFixer

  // ---- What the sources show -----------------------------------------------------------------------------

  /** `code` is a whole run of digits of `text`, as the greedy `\d+` after a bracket or a blank finds it. */
  ghost predicate ShowsAt(text: string, o: nat, code: string) {
    && IsCode(code)
    && o + |code| <= |text| && text[o..o + |code|] == code
    && (o == 0 || !IsDigit(text[o - 1]))
    && (o + |code| == |text| || !IsDigit(text[o + |code|]))
  }

  ghost predicate Shows(files: Files, loc: Location) {
    loc.file in files && ShowsAt(files[loc.file], loc.offset, loc.code)
  }

  /** The locations are what reading the files yields. */
  ghost predicate ReadFrom(files: Files, locs: seq<Location>) {
    forall loc :: loc in locs ==> Shows(files, loc)
  }

  /** The digits found at `loc` once its first digit is replaced. */
  ghost function NewCode(loc: Location, fixes: Edits): string
    requires loc.code != []
  {
    if SiteOf(loc) in fixes then fixes[SiteOf(loc)] + loc.code[1..] else loc.code
  }

  /** The location in the fixed sources; replacements in front of it have moved it. */
  ghost function Moved(files: Files, loc: Location, fixes: Edits): Location
    requires Shows(files, loc)
  {
    loc.(offset := |Substituted(loc.file, files[loc.file], 0, loc.offset, fixes)|, code := NewCode(loc, fixes))
  }

  ghost function Reread(files: Files, locs: seq<Location>, fixes: Edits): (r: seq<Location>)
    requires ReadFrom(files, locs)
    ensures |r| == |locs|
  {
    seq(|locs|, i requires 0 <= i < |locs| => assert locs[i] in locs; Moved(files, locs[i], fixes))
  }

  /** Every edit replaces the first digit of a run by digits. */
  ghost predicate EditsCodes(files: Files, fixes: Edits) {
    forall at :: at in fixes ==>
      && IsCode(fixes[at])
      && (at.file in files && 0 < at.offset < |files[at.file]| ==> !IsDigit(files[at.file][at.offset - 1]))
      && (at.file in files && at.offset < |files[at.file]| ==> IsDigit(files[at.file][at.offset]))
  }

  lemma RunOfDigits(text: string, o: nat, code: string, i: nat)
    requires ShowsAt(text, o, code) && o <= i < o + |code|
    ensures IsDigit(text[i])
  {
    assert text[i] == text[o..o + |code|][i - o];
  }

  lemma OneCodePerSite(files: Files, a: Location, b: Location)
    requires Shows(files, a) && Shows(files, b) && SiteOf(a) == SiteOf(b)
    ensures a.code == b.code
  {
    var text, o := files[a.file], a.offset;
    var aEnd, bEnd := o + |a.code|, o + |b.code|;
    if aEnd < bEnd {
      RunOfDigits(text, o, b.code, aEnd);
    } else if bEnd < aEnd {
      RunOfDigits(text, o, a.code, bEnd);
    }
  }

  /** The replaced run itself. */
  lemma SubstitutedRun(files: Files, loc: Location, fixes: Edits)
    requires Shows(files, loc) && EditsCodes(files, fixes)
    ensures Substituted(loc.file, files[loc.file], loc.offset, loc.offset + |loc.code|, fixes) == NewCode(loc, fixes)
  {
    var f, text, o, hi := loc.file, files[loc.file], loc.offset, loc.offset + |loc.code|;
    forall i | o < i < hi ensures Site(f, i) !in fixes {
      RunOfDigits(text, o, loc.code, i - 1);
      assert Site(f, i).offset == i;
    }
    SubstitutedFront(f, text, o, hi, fixes);
    SubstitutedUntouched(f, text, o + 1, hi, fixes);
    assert text[o + 1..hi] == text[o..hi][1..];
    assert [text[o]] + text[o + 1..hi] == text[o..hi];
  }

  /** What stands in front of a run stays a non-digit, or the run stays at the front. */
  lemma SubstitutedBefore(files: Files, loc: Location, fixes: Edits)
    requires Shows(files, loc) && EditsCodes(files, fixes)
    ensures var before := Substituted(loc.file, files[loc.file], 0, loc.offset, fixes);
            before == [] || !IsDigit(before[|before| - 1])
  {
    var f, o := loc.file, loc.offset;
    assert o > 0 ==> Site(f, o - 1).offset == o - 1;
  }

  lemma SubstitutedBehind(files: Files, loc: Location, fixes: Edits)
    requires Shows(files, loc) && EditsCodes(files, fixes)
    ensures var text, end := files[loc.file], loc.offset + |loc.code|;
            var behind := Substituted(loc.file, text, end, |text|, fixes);
            behind == [] || !IsDigit(behind[0])
  {
    var f, text, end := loc.file, files[loc.file], loc.offset + |loc.code|;
    if end < |text| {
      assert Site(f, end).offset == end;
      SubstitutedSplits(f, text, end, end + 1, |text|, fixes);
      assert Substituted(f, text, end, end, fixes) == [];
    }
  }

  lemma ShowsBetween(before: string, code: string, behind: string)
    requires IsCode(code)
    requires (before == [] || !IsDigit(before[|before| - 1])) && (behind == [] || !IsDigit(behind[0]))
    ensures ShowsAt(before + (code + behind), |before|, code)
  {
    var text := before + (code + behind);
    assert text[|before|..|before| + |code|] == code;
  }

  lemma NewCodeIsCode(files: Files, loc: Location, fixes: Edits)
    requires Shows(files, loc) && EditsCodes(files, fixes)
    ensures IsCode(NewCode(loc, fixes))
  {}

  /** A location of the original sources is a location of the fixed ones, moved and with its new digits. */
  lemma ShownAfterFix(files: Files, loc: Location, fixes: Edits)
    requires Shows(files, loc) && EditsCodes(files, fixes)
    ensures Shows(Patched(files, fixes), Moved(files, loc, fixes))
  {
    var f, text, o, end := loc.file, files[loc.file], loc.offset, loc.offset + |loc.code|;
    SubstitutedSplits(f, text, 0, o, |text|, fixes);
    SubstitutedSplits(f, text, o, end, |text|, fixes);
    SubstitutedRun(files, loc, fixes);
    SubstitutedBefore(files, loc, fixes);
    SubstitutedBehind(files, loc, fixes);
    NewCodeIsCode(files, loc, fixes);
    ShowsBetween(Substituted(f, text, 0, o, fixes), NewCode(loc, fixes), Substituted(f, text, end, |text|, fixes));
  }

  lemma FirstDigit(files: Files, loc: Location)
    requires Shows(files, loc)
    ensures files[loc.file][loc.offset] == loc.code[0]
  {
    var text, o := files[loc.file], loc.offset;
    assert text[o..o + |loc.code|][0] == text[o];
  }
}
