/** Checking assertion codes: duplicates, zero codes and codes beyond the maximum. */
module AssertionCodes {
  import opened Basics

  const MAXIMUM_CODE := 51999

  /** Where an assertion code stands; `code` is the digit string found in the source. */
  datatype Location = Location(file: string, offset: nat, lines: string, code: string)

  predicate IsDigit(c: char) {
    '0' <= c <= '9'
  }

  /** What `\d+` matches, in ASCII. */
  predicate IsCode(s: string) {
    s != [] && forall i :: 0 <= i < |s| ==> IsDigit(s[i])
  }

  ghost predicate AllCodes(locs: seq<Location>) {
    forall loc :: loc in locs ==> IsCode(loc.code)
  }

  /** Python's `int` on digit strings. */
  function IntOf(s: string): nat
    requires forall i :: 0 <= i < |s| ==> IsDigit(s[i])
  {
    if s == [] then 0 else 10 * IntOf(s[..|s| - 1]) + DigitValue(s[|s| - 1])
  }

  function DigitValue(c: char): (d: nat)
    requires IsDigit(c)
    ensures d < 10
  {
    c as int - '0' as int
  }

  /** The locations that carry `code`, in order. */
  function WithCode(locs: seq<Location>, code: string): seq<Location> {
    if locs == [] then []
    else
      var n := |locs| - 1;
      WithCode(locs[..n], code) + if locs[n].code == code then [locs[n]] else []
  }

  // ---- The checker -------------------------------------------------------------------------------------

  function NewErrors(before: seq<Location>, loc: Location): seq<Location>
    requires IsCode(loc.code)
  {
    var same := WithCode(before, loc.code);
    if same == [] then if IntOf(loc.code) > MAXIMUM_CODE then [loc] else []
    else if |same| == 1 then [same[0], loc]
    else [loc]
  }

  /** The errors recorded while the locations are visited. */
  function ErrorsDuring(locs: seq<Location>): seq<Location>
    requires AllCodes(locs)
  {
    if locs == [] then []
    else
      var n := |locs| - 1;
      assert AllCodes(locs[..n]) && locs[n] in locs;
      ErrorsDuring(locs[..n]) + NewErrors(locs[..n], locs[n])
  }

  /** All errors; a zero code is reported once more at the end. */
  function Errors(locs: seq<Location>): seq<Location>
    requires AllCodes(locs)
  {
    var zeros := WithCode(locs, "0");
    ErrorsDuring(locs) + if zeros == [] then [] else [zeros[0]]
  }

  /** The first location of each code, as the visit records it. */
  ghost function SeenAfter(locs: seq<Location>): map<string, Location> {
    if locs == [] then map[]
    else
      var before, loc := SeenAfter(locs[..|locs| - 1]), locs[|locs| - 1];
      if loc.code in before then before else before[loc.code := loc]
  }

  /** The locations of each repeated code, as the visit records them. */
  ghost function DupsAfter(locs: seq<Location>): map<string, seq<Location>> {
    if locs == [] then map[]
    else
      var n := |locs| - 1;
      var before, seen, code := DupsAfter(locs[..n]), SeenAfter(locs[..n]), locs[n].code;
      if code !in seen then before
      else before[code := (if code in before then before[code] else [seen[code]]) + [locs[n]]]
  }

  lemma {:induction false} SeenIsFirst(locs: seq<Location>, code: string)
    ensures code in SeenAfter(locs) <==> WithCode(locs, code) != []
    ensures code in SeenAfter(locs) ==> SeenAfter(locs)[code] == WithCode(locs, code)[0]
  {
    if locs != [] {
      SeenIsFirst(locs[..|locs| - 1], code);
    }
  }

  /** A code is listed as a duplicate exactly when it is repeated, with all its locations in order. */
  lemma {:induction false} DupsAreRepeats(locs: seq<Location>, code: string)
    ensures code in DupsAfter(locs) <==> |WithCode(locs, code)| >= 2
    ensures code in DupsAfter(locs) ==> DupsAfter(locs)[code] == WithCode(locs, code)
  {
    if locs != [] {
      DupsAreRepeats(locs[..|locs| - 1], code);
      SeenIsFirst(locs[..|locs| - 1], code);
    }
  }

  /** The first locations of codes beyond the maximum, as the visit records them. */
  ghost function SkipsAfter(locs: seq<Location>): seq<Location>
    requires AllCodes(locs)
  {
    if locs == [] then []
    else
      var n := |locs| - 1;
      assert AllCodes(locs[..n]) && locs[n] in locs;
      SkipsAfter(locs[..n]) +
      if WithCode(locs[..n], locs[n].code) == [] && IntOf(locs[n].code) > MAXIMUM_CODE then [locs[n]] else []
  }

  /** The skips are exactly the first locations of codes beyond the maximum. */
  lemma {:induction false} SkipsAreExcess(locs: seq<Location>, loc: Location)
    requires AllCodes(locs) && IsCode(loc.code)
    ensures loc in SkipsAfter(locs) <==>
            var same := WithCode(locs, loc.code); same != [] && same[0] == loc && IntOf(loc.code) > MAXIMUM_CODE
    decreases |locs|
  {
    if locs != [] {
      var n := |locs| - 1;
      assert AllCodes(locs[..n]) && locs[n] in locs;
      SkipsAreExcess(locs[..n], loc);
      WithCodeMembers(locs[..n], loc.code);
      var same := WithCode(locs[..n], loc.code);
      assert same != [] ==> same[0] in same && same[0].code == loc.code;
    }
  }

  class Checker {
    var codes: seq<Location>
    var seen: map<string, Location>
    var dups: map<string, seq<Location>>
    var skips: seq<Location>
    var errors: seq<Location>

    /** The bookkeeping is exactly what the visited locations call for. */
    ghost predicate Tracks(locs: seq<Location>)
      reads this
    {
      && AllCodes(locs) && codes == locs
      && seen == SeenAfter(locs) && dups == DupsAfter(locs)
      && skips == SkipsAfter(locs) && errors == ErrorsDuring(locs)
    }

    constructor ()
      ensures Tracks([])
    {
      codes, seen, dups, skips, errors := [], map[], map[], [], [];
    }

    method NoteFirst(loc: Location, ghost before: seq<Location>)
      requires Tracks(before) && IsCode(loc.code) && loc.code !in seen
      modifies this
      ensures Tracks(before + [loc])
    {
      FirstGrows(before, loc);
      codes := codes + [loc];
      seen := seen[loc.code := loc];
      if IntOf(loc.code) > MAXIMUM_CODE {
        skips := skips + [loc];
        errors := errors + [loc];
      }
    }

    method NoteRepeat(loc: Location, ghost before: seq<Location>)
      requires Tracks(before) && IsCode(loc.code) && loc.code in seen
      modifies this
      ensures Tracks(before + [loc])
    {
      RepeatErrors(before, loc);
      RepeatSkips(before, loc);
      RepeatDups(before, loc);
      var code := loc.code;
      codes := codes + [loc];
      if code !in dups {
        AppendTwo(errors, seen[code], loc);
        UpdateTwice(dups, code, [seen[code]], [seen[code]] + [loc]);
        dups := dups[code := [seen[code]]];
        errors := errors + [seen[code]];
      }
      dups := dups[code := dups[code] + [loc]];
      errors := errors + [loc];
    }

    method CheckDups(loc: Location, ghost before: seq<Location>)
      requires Tracks(before) && IsCode(loc.code)
      modifies this
      ensures Tracks(before + [loc])
    {
      if loc.code !in seen {
        NoteFirst(loc, before);
      } else {
        NoteRepeat(loc, before);
      }
    }

    method CheckAll(locs: seq<Location>)
      requires Tracks([]) && AllCodes(locs)
      modifies this
      ensures Tracks(locs)
    {
      ghost var visited: seq<Location> := [];
      for i := 0 to |locs|
        invariant visited == locs[..i] && Tracks(visited)
      {
        assert locs[i] in locs && locs[..i + 1] == locs[..i] + [locs[i]];
        CheckDups(locs[i], visited);
        visited := visited + [locs[i]];
      }
      assert locs[..|locs|] == locs;
    }

    /** Visit every location, then report a zero code; `dups` lists the duplicates with all their locations. */
    method ReadErrorCodes(locs: seq<Location>) returns (all: seq<Location>)
      requires Tracks([]) && AllCodes(locs)
      modifies this
      ensures all == Errors(locs) == errors && codes == locs
      ensures dups == DupsAfter(locs) && skips == SkipsAfter(locs)
    {
      CheckAll(locs);
      var zero := "0";
      SeenIsFirst(locs, zero);
      if zero in seen {
        errors := errors + [seen[zero]];
      }
      all := errors;
    }
  }

  lemma ErrorsGrow(before: seq<Location>, loc: Location)
    requires AllCodes(before) && IsCode(loc.code)
    ensures AllCodes(before + [loc])
    ensures ErrorsDuring(before + [loc]) == ErrorsDuring(before) + NewErrors(before, loc)
    ensures SkipsAfter(before + [loc]) ==
            SkipsAfter(before) +
            if WithCode(before, loc.code) == [] && IntOf(loc.code) > MAXIMUM_CODE then [loc] else []
  {
    assert (before + [loc])[..|before|] == before;
  }

  lemma SeenGrows(before: seq<Location>, loc: Location)
    ensures SeenAfter(before + [loc]) ==
            if loc.code in SeenAfter(before) then SeenAfter(before) else SeenAfter(before)[loc.code := loc]
  {
    assert (before + [loc])[..|before|] == before;
  }

  lemma DupsGrow(before: seq<Location>, loc: Location)
    ensures DupsAfter(before + [loc]) ==
            if loc.code !in SeenAfter(before) then DupsAfter(before)
            else DupsAfter(before)[loc.code := WithCode(before, loc.code) + [loc]]
  {
    assert (before + [loc])[..|before|] == before;
    SeenIsFirst(before, loc.code);
    DupsAreRepeats(before, loc.code);
    var same := WithCode(before, loc.code);
    assert |same| == 1 ==> same == [same[0]];
  }

  /** What a location with a new code adds to the records. */
  lemma FirstGrows(before: seq<Location>, loc: Location)
    requires AllCodes(before) && IsCode(loc.code) && loc.code !in SeenAfter(before)
    ensures AllCodes(before + [loc])
    ensures SeenAfter(before + [loc]) == SeenAfter(before)[loc.code := loc]
    ensures DupsAfter(before + [loc]) == DupsAfter(before)
    ensures var excess := if IntOf(loc.code) > MAXIMUM_CODE then [loc] else [];
            && ErrorsDuring(before + [loc]) == ErrorsDuring(before) + excess
            && SkipsAfter(before + [loc]) == SkipsAfter(before) + excess
  {
    SeenIsFirst(before, loc.code);
    ErrorsGrow(before, loc);
    SeenGrows(before, loc);
    DupsGrow(before, loc);
  }

  lemma RepeatSkips(before: seq<Location>, loc: Location)
    requires AllCodes(before) && IsCode(loc.code) && loc.code in SeenAfter(before)
    ensures AllCodes(before + [loc]) && SkipsAfter(before + [loc]) == SkipsAfter(before)
  {
    SeenIsFirst(before, loc.code);
    ErrorsGrow(before, loc);
    assert SkipsAfter(before) + [] == SkipsAfter(before);
  }

  /** What a location with a code seen before adds to the errors. */
  lemma RepeatErrors(before: seq<Location>, loc: Location)
    requires AllCodes(before) && IsCode(loc.code) && loc.code in SeenAfter(before)
    ensures AllCodes(before + [loc])
    ensures var again := if loc.code in DupsAfter(before) then [loc] else [SeenAfter(before)[loc.code], loc];
            ErrorsDuring(before + [loc]) == ErrorsDuring(before) + again
  {
    SeenIsFirst(before, loc.code);
    DupsAreRepeats(before, loc.code);
    ErrorsGrow(before, loc);
  }

  /** What it adds to the duplicates. */
  lemma RepeatDups(before: seq<Location>, loc: Location)
    requires loc.code in SeenAfter(before)
    ensures SeenAfter(before + [loc]) == SeenAfter(before)
    ensures var dups, code := DupsAfter(before), loc.code;
            DupsAfter(before + [loc]) ==
            dups[code := (if code in dups then dups[code] else [SeenAfter(before)[code]]) + [loc]]
  {
    assert (before + [loc])[..|before|] == before;
  }

  // ---- When the check passes ------------------------------------------------------------------------------

  ghost predicate CodesDistinct(locs: seq<Location>) {
    forall i, j :: 0 <= i < j < |locs| ==> locs[i].code != locs[j].code
  }

  lemma {:induction false} WithCodeMembers(locs: seq<Location>, code: string)
    ensures forall loc :: loc in WithCode(locs, code) <==> loc in locs && loc.code == code
  {
    if locs != [] {
      WithCodeMembers(locs[..|locs| - 1], code);
      assert locs == locs[..|locs| - 1] + [locs[|locs| - 1]];
    }
  }

  lemma IsNewCode(locs: seq<Location>, code: string)
    ensures WithCode(locs, code) == [] <==> forall i :: 0 <= i < |locs| ==> locs[i].code != code
  {
    WithCodeMembers(locs, code);
    if WithCode(locs, code) != [] {
      assert WithCode(locs, code)[0] in WithCode(locs, code);
    } else {
      forall i | 0 <= i < |locs| ensures locs[i].code != code {
        assert locs[i] in locs && locs[i] !in WithCode(locs, code);
      }
    }
  }

  lemma DistinctGrows(locs: seq<Location>)
    requires locs != []
    ensures var n := |locs| - 1;
            CodesDistinct(locs) <==> CodesDistinct(locs[..n]) && forall i :: 0 <= i < n ==> locs[i].code != locs[n].code
  {}

  ghost predicate WithinMaximum(locs: seq<Location>)
    requires AllCodes(locs)
  {
    forall loc :: loc in locs ==> IntOf(loc.code) <= MAXIMUM_CODE
  }

  lemma WithinGrows(locs: seq<Location>)
    requires AllCodes(locs) && locs != []
    ensures var n := |locs| - 1;
            && AllCodes(locs[..n]) && locs[n] in locs
            && (WithinMaximum(locs) <==> WithinMaximum(locs[..n]) && IntOf(locs[n].code) <= MAXIMUM_CODE)
  {
    var n := |locs| - 1;
    assert locs == locs[..n] + [locs[n]];
  }

  lemma NoNewErrors(locs: seq<Location>)
    requires AllCodes(locs) && locs != []
    ensures var n := |locs| - 1;
            && AllCodes(locs[..n]) && locs[n] in locs
            && (NewErrors(locs[..n], locs[n]) == [] <==>
                  && IntOf(locs[n].code) <= MAXIMUM_CODE
                  && forall i :: 0 <= i < n ==> locs[i].code != locs[n].code)
  {
    IsNewCode(locs[..|locs| - 1], locs[|locs| - 1].code);
  }

  lemma {:induction false} NoErrorsDuring(locs: seq<Location>)
    requires AllCodes(locs)
    ensures ErrorsDuring(locs) == [] <==> CodesDistinct(locs) && WithinMaximum(locs)
    decreases |locs|
  {
    if locs != [] {
      WithinGrows(locs);
      NoNewErrors(locs);
      NoErrorsDuring(locs[..|locs| - 1]);
      DistinctGrows(locs);
    }
  }

  /** The check passes exactly on distinct codes, none of them "0", none beyond the maximum. */
  lemma CheckPassesExactly(locs: seq<Location>)
    requires AllCodes(locs)
    ensures Errors(locs) == [] <==>
            && CodesDistinct(locs)
            && forall loc :: loc in locs ==> loc.code != "0" && IntOf(loc.code) <= MAXIMUM_CODE
  {
    NoErrorsDuring(locs);
    WithCodeMembers(locs, "0");
    if exists loc :: loc in locs && loc.code == "0" {
      var loc :| loc in locs && loc.code == "0";
      assert loc in WithCode(locs, "0");
    } else if WithCode(locs, "0") != [] {
      assert WithCode(locs, "0")[0] in WithCode(locs, "0");
    }
  }

  /** A repeated code has all its locations among the errors. */
  lemma {:induction false} RepeatedCodesReported(locs: seq<Location>, code: string)
    requires AllCodes(locs) && |WithCode(locs, code)| >= 2
    ensures forall loc :: loc in WithCode(locs, code) ==> loc in ErrorsDuring(locs)
    decreases |locs|
  {
    var n := |locs| - 1;
    var init, last := locs[..n], locs[n];
    assert AllCodes(init) && last in locs;
    if |WithCode(init, code)| >= 2 {
      RepeatedCodesReported(init, code);
    } else {
      assert last.code == code && |WithCode(init, code)| == 1;
    }
  }

  /** Every zero code is among the errors, however often it occurs. */
  lemma ZeroCodesReported(locs: seq<Location>, loc: Location)
    requires AllCodes(locs) && loc in locs && loc.code == "0"
    ensures loc in Errors(locs)
  {
    WithCodeMembers(locs, "0");
    var zeros := WithCode(locs, "0");
    if |zeros| >= 2 {
      RepeatedCodesReported(locs, "0");
    } else {
      assert loc in zeros;
      assert zeros[0] == loc;
    }
  }

  lemma NewErrorsAreLocations(before: seq<Location>, loc: Location)
    requires IsCode(loc.code)
    ensures forall e :: e in NewErrors(before, loc) ==> e == loc || e in before
  {
    var same := WithCode(before, loc.code);
    WithCodeMembers(before, loc.code);
    assert same != [] ==> same[0] in same;
  }

  lemma {:induction false} ErrorsAreLocations(locs: seq<Location>)
    requires AllCodes(locs)
    ensures forall loc :: loc in ErrorsDuring(locs) ==> loc in locs
    decreases |locs|
  {
    if locs != [] {
      var n := |locs| - 1;
      assert locs == locs[..n] + [locs[n]] && AllCodes(locs[..n]) && locs[n] in locs;
      ErrorsAreLocations(locs[..n]);
      NewErrorsAreLocations(locs[..n], locs[n]);
    }
  }
}
