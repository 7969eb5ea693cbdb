/** Replacing zero codes in source texts, back to front. */
module CodeFixer {
  import opened Basics
  import opened Ordering
  import opened AssertionCodes

  // ---- Decimal numerals ------------------------------------------------------------------------------

  function Digit(d: nat): (c: char)
    requires d < 10
    ensures IsDigit(c) && DigitValue(c) == d
  {
    ('0' as int + d) as char
  }

  /** Python's `str` of a non-negative integer. */
  function Decimal(n: nat): (s: string)
    ensures s != [] && forall i :: 0 <= i < |s| ==> IsDigit(s[i])
  {
    if n < 10 then [Digit(n)] else Decimal(n / 10) + [Digit(n % 10)]
  }

  lemma {:induction false} DecimalRoundTrip(n: nat)
    ensures IntOf(Decimal(n)) == n
  {
    if n < 10 {
      assert [Digit(n)][..0] == [];
    } else {
      DecimalRoundTrip(n / 10);
      var s := Decimal(n / 10) + [Digit(n % 10)];
      assert s[..|s| - 1] == Decimal(n / 10);
    }
  }

  lemma {:induction false} DecimalLeads(n: nat)
    requires n > 0
    ensures Decimal(n)[0] != '0'
  {
    if n >= 10 {
      DecimalLeads(n / 10);
    } else {
      assert DigitValue(Digit(n)) == n;
    }
  }

  // ---- The next free code ------------------------------------------------------------------------------

  /** `reduce` with a `max` of `int`s: it needs two codes, since a lone one is never converted. */
  method GetNextCode(codes: seq<Location>) returns (next: Option<nat>)
    requires AllCodes(codes)
    ensures next.Some? <==> |codes| >= 2
    ensures next.Some? ==> forall loc :: loc in codes ==> IntOf(loc.code) < next.value
    ensures next.Some? ==> exists loc :: loc in codes && IntOf(loc.code) == next.value - 1
  {
    if |codes| < 2 {
      return None;
    }
    assert codes[0] in codes;
    var highest := IntOf(codes[0].code);
    ghost var best := codes[0];
    for i := 1 to |codes|
      invariant best in codes && IntOf(best.code) == highest
      invariant forall j :: 0 <= j < i ==> IsCode(codes[j].code) && IntOf(codes[j].code) <= highest
    {
      assert codes[i] in codes;
      var value := IntOf(codes[i].code);
      if value > highest {
        highest, best := value, codes[i];
      }
    }
    next := Some(highest + 1);
  }

  // ---- The order of the edits ------------------------------------------------------------------------

  /** Python's order on location tuples. */
  predicate LocationLe(a: Location, b: Location) {
    if a.file != b.file then StringLe(a.file, b.file)
    else if a.offset != b.offset then a.offset < b.offset
    else if a.lines != b.lines then StringLe(a.lines, b.lines)
    else StringLe(a.code, b.code)
  }

  lemma LocationLeTotal(a: Location, b: Location)
    ensures LocationLe(a, b) || LocationLe(b, a)
  {
    StringLeTotal(a.file, b.file);
    StringLeTotal(a.lines, b.lines);
    StringLeTotal(a.code, b.code);
  }

  lemma LocationLeTransitive(a: Location, b: Location, c: Location)
    requires LocationLe(a, b) && LocationLe(b, c)
    ensures LocationLe(a, c)
  {
    if a.file == b.file == c.file {
      if a.offset == b.offset == c.offset {
        if a.lines == b.lines == c.lines {
          StringLeTransitive(a.code, b.code, c.code);
        } else if a.lines != b.lines && b.lines != c.lines {
          StringLeTransitive(a.lines, b.lines, c.lines);
          AntisymmetricEnds(a.lines, b.lines, c.lines);
        }
      }
    } else if a.file != b.file && b.file != c.file {
      StringLeTransitive(a.file, b.file, c.file);
      AntisymmetricEnds(a.file, b.file, c.file);
    }
  }

  lemma AntisymmetricEnds(a: string, b: string, c: string)
    requires StringLe(a, b) && StringLe(b, c) && a != b
    ensures a != c
  {
    if a == c {
      StringLeAntisymmetric(a, b);
    }
  }

  lemma LocationLeIsPreorder()
    ensures TotalPreorder(LocationLe)
  {
    forall a, b ensures LocationLe(a, b) || LocationLe(b, a) {
      LocationLeTotal(a, b);
    }
    forall a, b, c | LocationLe(a, b) && LocationLe(b, c) ensures LocationLe(a, c) {
      LocationLeTransitive(a, b, c);
    }
  }

  /** Keep the first of equal entries. */
  function Dedupe(locs: seq<Location>): (r: seq<Location>)
    ensures forall loc :: loc in r <==> loc in locs
    ensures Distinct(r)
  {
    if locs == [] then []
    else
      var n := |locs| - 1;
      var init := Dedupe(locs[..n]);
      assert locs == locs[..n] + [locs[n]];
      if locs[n] in init then init else init + [locs[n]]
  }

  function Zeros(locs: seq<Location>): (r: seq<Location>)
    requires AllCodes(locs)
    ensures forall loc :: loc in r <==> loc in locs && IntOf(loc.code) == 0
  {
    if locs == [] then []
    else
      var n := |locs| - 1;
      assert locs == locs[..n] + [locs[n]] && locs[n] in locs && AllCodes(locs[..n]);
      Zeros(locs[..n]) + if IntOf(locs[n].code) == 0 then [locs[n]] else []
  }

  /** The zero errors, each once, in ascending order; edits are made from the back. */
  function Ascending(errors: seq<Location>): seq<Location>
    requires AllCodes(errors)
  {
    Sort(Dedupe(Zeros(errors)), LocationLe)
  }

  // ---- The edits, one after another --------------------------------------------------------------------

  type Files = map<string, string>

  /** Writing over a file without truncating it. */
  function Overwrite(content: string, written: string): string {
    written + if |written| < |content| then content[|written|..] else []
  }

  predicate IsEditable(files: Files, loc: Location) {
    loc.file in files && loc.offset < |files[loc.file]| && files[loc.file][loc.offset] == '0'
  }

  function Edit(files: Files, loc: Location, code: nat): Files
    requires IsEditable(files, loc)
  {
    var text := files[loc.file];
    files[loc.file := Overwrite(text, text[..loc.offset] + Decimal(code) + text[loc.offset + 1..])]
  }

  /** None when an edit does not find a '0' at its offset and the program stops with an assertion error. */
  function FixAll(files: Files, locs: seq<Location>, next: nat): Option<Files>
    decreases |locs|
  {
    if locs == [] then Some(files)
    else
      var last := locs[|locs| - 1];
      if !IsEditable(files, last) then None
      else FixAll(Edit(files, last, next), locs[..|locs| - 1], next + 1)
  }

  method ReplaceBadCodes(files: Files, errors: seq<Location>, nextCode: nat) returns (r: Option<Files>)
    requires AllCodes(errors)
    ensures r == FixAll(files, Ascending(errors), nextCode)
  {
    var locs := Ascending(errors);
    r := ReplaceBackwards(files, locs, nextCode);
  }

  method ReplaceBackwards(files: Files, locs: seq<Location>, nextCode: nat) returns (r: Option<Files>)
    ensures r == FixAll(files, locs, nextCode)
  {
    var current, code := files, nextCode;
    var i := |locs|;
    assert locs[..i] == locs;
    while i > 0
      invariant 0 <= i <= |locs|
      invariant FixAll(files, locs, nextCode) == FixAll(current, locs[..i], code)
    {
      i := i - 1;
      assert locs[..i + 1][..i] == locs[..i] && locs[..i + 1][i] == locs[i];
      if !IsEditable(current, locs[i]) {
        return None;
      }
      current, code := Edit(current, locs[i], code), code + 1;
    }
    r := Some(current);
  }

  // ---- The edits, all at once -----------------------------------------------------------------------------

  datatype Site = Site(file: string, offset: nat)

  function SiteOf(loc: Location): Site {
    Site(loc.file, loc.offset)
  }

  /** Replacement texts by original position. */
  type Edits = map<Site, string>

  /** `text[lo..hi]` of file `f` with every edited character replaced. */
  ghost function Substituted(f: string, text: string, lo: nat, hi: nat, edits: Edits): string
    requires lo <= hi <= |text|
    decreases hi - lo
  {
    if lo == hi then []
    else
      var at := Site(f, hi - 1);
      Substituted(f, text, lo, hi - 1, edits) + if at in edits then edits[at] else [text[hi - 1]]
  }

  ghost function Patched(files: Files, edits: Edits): Files {
    map f | f in files :: Substituted(f, files[f], 0, |files[f]|, edits)
  }

  /** The code each location gets: the last one gets `next`. */
  ghost function Assigned(locs: seq<Location>, next: nat): Edits
    decreases |locs|
  {
    if locs == [] then map[]
    else Assigned(locs[..|locs| - 1], next + 1)[SiteOf(locs[|locs| - 1]) := Decimal(next)]
  }

  lemma {:induction false} SubstitutedSplits(f: string, text: string, lo: nat, k: nat, hi: nat, edits: Edits)
    requires lo <= k <= hi <= |text|
    ensures Substituted(f, text, lo, hi, edits) ==
            Substituted(f, text, lo, k, edits) + Substituted(f, text, k, hi, edits)
    decreases hi - k
  {
    if k < hi {
      SubstitutedSplits(f, text, lo, k, hi - 1, edits);
    }
  }

  lemma {:induction false} SubstitutedSame(f: string, text: string, lo: nat, hi: nat, e1: Edits, e2: Edits)
    requires lo <= hi <= |text|
    requires forall i :: lo <= i < hi ==> (Site(f, i) in e1 <==> Site(f, i) in e2)
    requires forall i :: lo <= i < hi && Site(f, i) in e1 ==> e1[Site(f, i)] == e2[Site(f, i)]
    ensures Substituted(f, text, lo, hi, e1) == Substituted(f, text, lo, hi, e2)
    decreases hi - lo
  {
    if lo < hi {
      SubstitutedSame(f, text, lo, hi - 1, e1, e2);
    }
  }

  lemma {:induction false} SubstitutedUntouched(f: string, text: string, lo: nat, hi: nat, edits: Edits)
    requires lo <= hi <= |text| && forall i :: lo <= i < hi ==> Site(f, i) !in edits
    ensures Substituted(f, text, lo, hi, edits) == text[lo..hi]
    decreases hi - lo
  {
    if lo < hi {
      SubstitutedUntouched(f, text, lo, hi - 1, edits);
    }
  }

  /** What stands at `o`, edited or not. */
  ghost function Replaced(f: string, text: string, o: nat, edits: Edits): string
    requires o < |text|
  {
    if Site(f, o) in edits then edits[Site(f, o)] else [text[o]]
  }

  lemma SubstitutedFront(f: string, text: string, o: nat, hi: nat, edits: Edits)
    requires o < hi <= |text|
    ensures Substituted(f, text, o, hi, edits) ==
            Replaced(f, text, o, edits) + Substituted(f, text, o + 1, hi, edits)
  {
    SubstitutedSplits(f, text, o, o + 1, hi, edits);
    assert Substituted(f, text, o, o, edits) == [];
    assert [] + Replaced(f, text, o, edits) == Replaced(f, text, o, edits);
  }

  /** Where the file stands once everything at or behind `o` may have been edited. */
  lemma SubstitutedAt(f: string, text: string, o: nat, edits: Edits)
    requires o < |text| && forall i :: 0 <= i < o ==> Site(f, i) !in edits
    ensures Substituted(f, text, 0, |text|, edits) ==
            text[..o] + (Replaced(f, text, o, edits) + Substituted(f, text, o + 1, |text|, edits))
  {
    SubstitutedSplits(f, text, 0, o, |text|, edits);
    SubstitutedUntouched(f, text, 0, o, edits);
    SubstitutedFront(f, text, o, |text|, edits);
    assert text[0..o] == text[..o];
  }

  lemma ReplaceInMiddle(front: string, old': string, rest: string, new': string)
    requires |old'| == 1
    ensures var before := front + (old' + rest);
            && |front| < |before| && before[|front|] == old'[0]
            && front + (new' + rest) == before[..|front|] + new' + before[|front| + 1..]
  {
    var before := front + (old' + rest);
    assert before[..|front|] == front && before[|front| + 1..] == rest;
  }

  /** One more edit in front of all others is an edit of the text that has those. */
  lemma OneMoreEdit(f: string, text: string, o: nat, edits: Edits, s: string)
    requires o < |text| && forall i :: 0 <= i <= o ==> Site(f, i) !in edits
    ensures var before := Substituted(f, text, 0, |text|, edits);
            && o < |before| && before[o] == text[o]
            && Substituted(f, text, 0, |text|, edits[Site(f, o) := s]) == before[..o] + s + before[o + 1..]
  {
    var e := edits[Site(f, o) := s];
    SubstitutedAt(f, text, o, edits);
    SubstitutedAt(f, text, o, e);
    SubstitutedSame(f, text, o + 1, |text|, edits, e);
    ReplaceInMiddle(text[..o], [text[o]], Substituted(f, text, o + 1, |text|, edits), s);
  }

  lemma EditIsPatch(files: Files, loc: Location, edits: Edits, code: nat)
    requires loc.file in files && loc.offset < |files[loc.file]|
    requires forall i :: 0 <= i <= loc.offset ==> Site(loc.file, i) !in edits
    ensures IsEditable(Patched(files, edits), loc) <==> IsEditable(files, loc)
    ensures IsEditable(files, loc) ==>
              Edit(Patched(files, edits), loc, code) == Patched(files, edits[SiteOf(loc) := Decimal(code)])
  {
    var f, text, e := loc.file, files[loc.file], edits[SiteOf(loc) := Decimal(code)];
    OneMoreEdit(f, text, loc.offset, edits, Decimal(code));
    if IsEditable(files, loc) {
      var before, after := Patched(files, edits), Patched(files, e);
      var edited := Edit(before, loc, code);
      assert edited[f] == after[f];
      forall g | g in files && g != f ensures edited[g] == after[g] {
        SubstitutedSame(g, files[g], 0, |files[g]|, edits, e);
      }
      assert edited.Keys == after.Keys;
    }
  }

  // ---- They agree -----------------------------------------------------------------------------------------

  /** Locations in the order of their sites. */
  ghost predicate SitesAscend(locs: seq<Location>) {
    forall i, j :: 0 <= i < j < |locs| && locs[i].file == locs[j].file ==> locs[i].offset <= locs[j].offset
  }

  ghost predicate SitesDistinct(locs: seq<Location>) {
    forall i, j :: 0 <= i < j < |locs| ==> SiteOf(locs[i]) != SiteOf(locs[j])
  }

  /** Edits already made: inside their files, not in front of what is left, with non-zero first digits. */
  ghost predicate EditsBehind(files: Files, locs: seq<Location>, edits: Edits) {
    && (forall at :: at in edits ==> at.file in files && at.offset < |files[at.file]|)
    && (forall at :: at in edits ==> edits[at] != [] && edits[at][0] != '0')
    && (forall at, loc :: at in edits && loc in locs && at.file == loc.file ==> loc.offset <= at.offset)
  }

  /** Every location shows a '0', at a site of its own. */
  ghost predicate Fixable(files: Files, locs: seq<Location>, taken: set<Site>) {
    && (forall loc :: loc in locs ==> IsEditable(files, loc) && SiteOf(loc) !in taken)
    && SitesDistinct(locs)
  }

  lemma FixableSplits(files: Files, locs: seq<Location>, taken: set<Site>)
    requires locs != []
    ensures var n := |locs| - 1;
            Fixable(files, locs, taken) <==>
            && IsEditable(files, locs[n]) && SiteOf(locs[n]) !in taken
            && Fixable(files, locs[..n], taken + {SiteOf(locs[n])})
  {
    var n := |locs| - 1;
    assert locs == locs[..n] + [locs[n]];
    if Fixable(files, locs[..n], taken + {SiteOf(locs[n])}) {
      assert forall i :: 0 <= i < n ==> locs[..n][i] in locs[..n];
    }
  }

  /** The last location can be edited in the patched files just when it can in the original ones. */
  lemma LastEditable(files: Files, locs: seq<Location>, edits: Edits)
    requires locs != [] && EditsBehind(files, locs, edits)
    ensures var last := locs[|locs| - 1];
            IsEditable(Patched(files, edits), last) <==> IsEditable(files, last) && SiteOf(last) !in edits
  {
    var last := locs[|locs| - 1];
    assert last in locs;
    if last.file in files {
      var f, text, o := last.file, files[last.file], last.offset;
      if o >= |text| {
        SubstitutedUntouched(f, text, 0, |text|, edits);
      } else if SiteOf(last) in edits {
        SubstitutedAt(f, text, o, edits);
      } else {
        EditIsPatch(files, last, edits, 0);
      }
    }
  }

  lemma {:induction false} FixAllPatches(files: Files, locs: seq<Location>, next: nat, edits: Edits)
    requires next > 0 && SitesAscend(locs) && EditsBehind(files, locs, edits)
    ensures FixAll(Patched(files, edits), locs, next) ==
            if Fixable(files, locs, edits.Keys) then Some(Patched(files, edits + Assigned(locs, next))) else None
    decreases |locs|
  {
    if locs == [] {
      assert edits + Assigned(locs, next) == edits;
    } else {
      var n := |locs| - 1;
      var last, init := locs[n], locs[..n];
      LastEditable(files, locs, edits);
      FixableSplits(files, locs, edits.Keys);
      if IsEditable(files, last) && SiteOf(last) !in edits {
        var e := edits[SiteOf(last) := Decimal(next)];
        EditKeepsBehind(files, locs, next, edits);
        FixAllPatches(files, init, next + 1, e);
        assert e.Keys == edits.Keys + {SiteOf(last)};
        if Fixable(files, locs, edits.Keys) {
          AssignedMerges(locs, next, edits);
        }
      }
    }
  }

  lemma AssignedMerges(locs: seq<Location>, next: nat, edits: Edits)
    requires locs != [] && SitesDistinct(locs)
    ensures var n := |locs| - 1;
            edits[SiteOf(locs[n]) := Decimal(next)] + Assigned(locs[..n], next + 1) == edits + Assigned(locs, next)
  {
    var n := |locs| - 1;
    AssignedAvoids(locs[..n], next + 1, SiteOf(locs[n]));
  }

  lemma EditKeepsBehind(files: Files, locs: seq<Location>, next: nat, edits: Edits)
    requires next > 0 && locs != [] && SitesAscend(locs) && EditsBehind(files, locs, edits)
    requires var last := locs[|locs| - 1]; IsEditable(files, last) && SiteOf(last) !in edits
    ensures var last := locs[|locs| - 1]; var e := edits[SiteOf(last) := Decimal(next)];
            && IsEditable(Patched(files, edits), last)
            && Edit(Patched(files, edits), last, next) == Patched(files, e)
            && EditsBehind(files, locs[..|locs| - 1], e)
  {
    var last := locs[|locs| - 1];
    assert last in locs;
    EditIsPatch(files, last, edits, next);
    DecimalLeads(next);
    LastEditBehind(files, locs, edits, Decimal(next));
  }

  lemma LastEditBehind(files: Files, locs: seq<Location>, edits: Edits, s: string)
    requires locs != [] && SitesAscend(locs) && EditsBehind(files, locs, edits)
    requires IsEditable(files, locs[|locs| - 1]) && s != [] && s[0] != '0'
    ensures EditsBehind(files, locs[..|locs| - 1], edits[SiteOf(locs[|locs| - 1]) := s])
  {
    var n := |locs| - 1;
    forall loc | loc in locs[..n] && loc.file == locs[n].file ensures loc.offset <= locs[n].offset {
      var i :| 0 <= i < n && locs[i] == loc;
    }
  }

  lemma {:induction false} AssignedAvoids(locs: seq<Location>, next: nat, at: Site)
    requires forall loc :: loc in locs ==> SiteOf(loc) != at
    ensures at !in Assigned(locs, next)
    decreases |locs|
  {
    if locs != [] {
      assert locs[|locs| - 1] in locs;
      AssignedAvoids(locs[..|locs| - 1], next + 1, at);
    }
  }

  lemma AscendingSites(errors: seq<Location>)
    requires AllCodes(errors)
    ensures SitesAscend(Ascending(errors))
    ensures forall loc :: loc in Ascending(errors) <==> loc in errors && IntOf(loc.code) == 0
  {
    LocationLeIsPreorder();
    var zeros := Dedupe(Zeros(errors));
    SortSorts(zeros, LocationLe);
    SortMembers(zeros, LocationLe);
    var locs := Ascending(errors);
    forall i, j | 0 <= i < j < |locs| && locs[i].file == locs[j].file ensures locs[i].offset <= locs[j].offset {
      assert LocationLe(locs[i], locs[j]);
    }
  }

  /** Editing back to front succeeds exactly when every zero error is a '0' at a site of its own, and then
      equals substituting all of them at once at their original offsets. */
  lemma FixingIsSimultaneous(files: Files, errors: seq<Location>, next: nat)
    requires AllCodes(errors) && next > 0
    ensures var locs := Ascending(errors);
            FixAll(files, locs, next) ==
            if Fixable(files, locs, {}) then Some(Patched(files, Assigned(locs, next))) else None
  {
    var locs := Ascending(errors);
    AscendingSites(errors);
    NothingPatched(files);
    var none: Edits := map[];
    assert none.Keys == {} && none + Assigned(locs, next) == Assigned(locs, next);
    FixAllPatches(files, locs, next, none);
  }

  lemma NothingPatched(files: Files)
    ensures Patched(files, map[]) == files
  {
    forall f | f in files ensures Substituted(f, files[f], 0, |files[f]|, map[]) == files[f] {
      SubstitutedUntouched(f, files[f], 0, |files[f]|, map[]);
    }
  }
}
