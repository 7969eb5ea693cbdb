/** `Suite` and the loops that fill suites, from `evergreen_generate_resmoke_tasks.py`. */
module SuiteSplitter {
  import opened Basics
  import opened SuitePartition
  import opened CappedSuites

  function Longest(ts: seq<Test>): real {
    if ts == [] then 0.0
    else
      var before, last := Longest(ts[..|ts| - 1]), ts[|ts| - 1].runtime;
      if last > before then last else before
  }

  function Timed(ts: seq<Test>): nat {
    if ts == [] then 0
    else Timed(ts[..|ts| - 1]) + if ts[|ts| - 1].runtime != 0.0 then 1 else 0
  }

  predicate AllTimed(ts: seq<Test>) {
    forall i :: 0 <= i < |ts| ==> ts[i].runtime != 0.0
  }

  lemma {:induction false} TimedCounts(ts: seq<Test>)
    ensures Timed(ts) <= |ts|
    ensures Timed(ts) == |ts| <==> AllTimed(ts)
  {
    if ts != [] {
      TimedCounts(ts[..|ts| - 1]);
    }
  }

  function Files(ts: seq<Test>): seq<string> {
    seq(|ts|, i requires 0 <= i < |ts| => ts[i].file)
  }

  class Suite {
    var tests: seq<string>
    var totalRuntime: real
    var maxRuntime: real
    var testsWithRuntimeInfo: nat
    ghost var added: seq<Test>

    /** The fields summarise exactly the tests added so far. */
    ghost predicate Valid()
      reads this
    {
      && tests == Files(added)
      && totalRuntime == Total(added)
      && maxRuntime == Longest(added)
      && testsWithRuntimeInfo == Timed(added)
    }

    constructor ()
      ensures Valid() && added == []
    {
      tests, totalRuntime, maxRuntime, testsWithRuntimeInfo, added := [], 0.0, 0.0, 0, [];
    }

    method AddTest(file: string, runtime: real)
      requires Valid()
      modifies this
      ensures Valid() && added == old(added) + [Test(file, runtime)]
    {
      ghost var after := added + [Test(file, runtime)];
      assert after[..|added|] == added;
      tests := tests + [file];
      totalRuntime := totalRuntime + runtime;
      if runtime != 0.0 {
        testsWithRuntimeInfo := testsWithRuntimeInfo + 1;
      }
      if runtime > maxRuntime {
        maxRuntime := runtime;
      }
      added := after;
    }

    /** Exactly when every test has runtime information. */
    method ShouldOverwriteTimeout() returns (r: bool)
      requires Valid()
      ensures r <==> AllTimed(added)
    {
      TimedCounts(added);
      r := |tests| == testsWithRuntimeInfo;
    }
  }

  /** The suites are separate objects in order, and suite i was given exactly the tests b[i]. */
  ghost predicate Holds(suites: seq<Suite>, b: Suites)
    reads suites
  {
    && |suites| == |b|
    && (forall i :: 0 <= i < |suites| ==> suites[i].Valid() && suites[i].added == b[i])
    && (forall i, j :: 0 <= i < j < |suites| ==> suites[i] != suites[j])
  }

  lemma HoldsOneMore(suites: seq<Suite>, b: Suites, s: Suite)
    requires Holds(suites, b) && s.Valid() && s !in suites
    ensures Holds(suites + [s], b + [s.added])
  {}

  lemma PrefixOfPrefix<T>(s: seq<T>, n: nat)
    requires n < |s|
    ensures s[..n + 1][..n] == s[..n] && s[..n + 1][n] == s[n]
  {}

  method AddToSuite(suites: seq<Suite>, i: nat, file: string, runtime: real, ghost b: Suites)
    requires Holds(suites, b) && i < |suites|
    modifies suites[i]
    ensures Holds(suites, b[i := b[i] + [Test(file, runtime)]])
  {
    suites[i].AddTest(file, runtime);
  }

  method DivideRemainingTestsAmongSuites(remaining: seq<Test>, suites: seq<Suite>, ghost b: Suites)
    requires suites != [] && Holds(suites, b)
    modifies suites
    ensures Holds(suites, Spread(b, remaining))
  {
    SpreadNothing(b);
    var idx := 0;
    for n := 0 to |remaining|
      invariant idx == n % |suites|
      invariant Holds(suites, Spread(b, remaining[..n]))
    {
      ghost var now := Spread(b, remaining[..n]);
      AddToSuite(suites, idx, remaining[n].file, remaining[n].runtime, now);
      PrefixOfPrefix(remaining, n);
      SpreadStep(b, remaining[..n + 1]);
      DivStep(n, |suites|);
      idx := idx + 1;
      if idx >= |suites| {
        idx := 0;
      }
    }
    assert remaining[..|remaining|] == remaining;
  }

  /** Close the current suite and start an empty one. */
  method StartNext(suites: seq<Suite>, current: Suite, ghost b: Suites) returns (next: Suite)
    requires Holds(suites, b) && current.Valid() && current !in suites
    ensures Holds(suites + [current], b + [old(current.added)])
    ensures fresh(next) && next.Valid() && next.added == [] && next !in suites + [current]
  {
    HoldsOneMore(suites, b, current);
    next := new Suite();
  }

  ghost function Grown(current: seq<Test>, t: Test): seq<Test> {
    if current == [] then [t] else current + [t]
  }

  method AddToCurrent(suites: seq<Suite>, current: Suite, t: Test, ghost b: Suites)
    requires Holds(suites, b) && current.Valid() && current !in suites
    modifies current
    ensures Holds(suites, b) && current.Valid()
    ensures current.added == Grown(old(current.added), t)
  {
    current.AddTest(t.file, t.runtime);
  }

  /** The loop over the tests: either all were placed, or the cap was reached at test `last`. */
  ghost predicate Filled(
      tests: seq<Test>, maxTime: real, cap: Option<nat>, closed: Suites, current: seq<Test>, last: nat)
  {
    && last <= |tests|
    && (last == |tests| ==>
          && Pack([], tests, maxTime) == closed + Pack(current, [], maxTime)
          && (cap.Some? ==> |closed| < cap.value))
    && (last < |tests| ==>
          && current == [] && cap == Some(|closed|)
          && Pack([], tests, maxTime) == closed + Pack([tests[last]], tests[last + 1..], maxTime))
  }

  lemma FilledIsDivided(
      tests: seq<Test>, maxTime: real, maxSuites: Option<int>, closed: Suites, current: seq<Test>, last: nat)
    requires Filled(tests, maxTime, EffectiveCap(maxSuites), closed, current, last)
    ensures last < |tests| ==> closed != [] && Divided(tests, maxTime, maxSuites) == Spread(closed, tests[last..])
    ensures last == |tests| ==> Divided(tests, maxTime, maxSuites) == closed + if current == [] then [] else [current]
  {
    if last < |tests| {
      var u, rest := Pack([], tests, maxTime), Pack([tests[last]], tests[last + 1..], maxTime);
      PackKeepsTests([tests[last]], tests[last + 1..], maxTime);
      assert [tests[last]] + tests[last + 1..] == tests[last..];
      assert u[..|closed|] == closed && u[|closed|..] == rest;
      assert rest != [];
    }
  }

  /** The state of that loop before test `idx`. */
  ghost predicate Filling(
      tests: seq<Test>, maxTime: real, cap: Option<nat>, closed: Suites, current: seq<Test>, idx: nat)
    requires idx <= |tests|
  {
    && Pack([], tests, maxTime) == closed + Pack(current, tests[idx..], maxTime)
    && (cap.Some? ==> |closed| < cap.value)
  }

  lemma FillingCloses(tests: seq<Test>, maxTime: real, cap: Option<nat>, closed: Suites, current: seq<Test>, idx: nat)
    requires idx < |tests| && Filling(tests, maxTime, cap, closed, current, idx)
    requires current != [] && Total(current) + tests[idx].runtime > maxTime
    ensures cap == Some(|closed| + 1) ==> Filled(tests, maxTime, cap, closed + [current], [], idx)
    ensures cap != Some(|closed| + 1) ==>
              Filling(tests, maxTime, cap, closed + [current], Grown([], tests[idx]), idx + 1)
  {
    assert tests[idx..] == [tests[idx]] + tests[idx + 1..];
    PackCloses(closed, current, tests[idx], tests[idx + 1..], maxTime);
  }

  lemma FillingAdds(tests: seq<Test>, maxTime: real, cap: Option<nat>, closed: Suites, current: seq<Test>, idx: nat)
    requires idx < |tests| && Filling(tests, maxTime, cap, closed, current, idx)
    requires current == [] || Total(current) + tests[idx].runtime <= maxTime
    ensures Filling(tests, maxTime, cap, closed, Grown(current, tests[idx]), idx + 1)
  {
    assert tests[idx..] == [tests[idx]] + tests[idx + 1..];
    PackAdds(current, tests[idx], tests[idx + 1..], maxTime);
  }

  lemma PackCloses(closed: Suites, current: seq<Test>, t: Test, rest: seq<Test>, maxTime: real)
    requires current != [] && Total(current) + t.runtime > maxTime
    ensures closed + Pack(current, [t] + rest, maxTime) == (closed + [current]) + Pack([t], rest, maxTime)
  {
    var ts, more := [t] + rest, Pack([t], rest, maxTime);
    assert ts[0] == t && ts[1..] == rest;
    assert closed + ([current] + more) == (closed + [current]) + more;
  }

  lemma PackAdds(current: seq<Test>, t: Test, rest: seq<Test>, maxTime: real)
    requires current == [] || Total(current) + t.runtime <= maxTime
    ensures Pack(current, [t] + rest, maxTime) == Pack(Grown(current, t), rest, maxTime)
  {
    var ts := [t] + rest;
    assert ts[0] == t && ts[1..] == rest && current + [t] == Grown(current, t);
  }

  method FillSuites(tests: seq<Test>, maxTime: real, maxSuites: Option<int>)
    returns (suites: seq<Suite>, current: Suite, last: nat, ghost closed: Suites)
    ensures fresh(suites) && Holds(suites, closed)
    ensures fresh(current) && current.Valid() && current !in suites
    ensures Filled(tests, maxTime, EffectiveCap(maxSuites), closed, current.added, last)
  {
    suites := [];
    current := new Suite();
    last := |tests|;
    closed := [];
    ghost var cap := EffectiveCap(maxSuites);
    assert [] + Pack([], tests, maxTime) == Pack([], tests, maxTime) && tests[0..] == tests;
    for idx := 0 to |tests|
      invariant fresh(suites) && Holds(suites, closed)
      invariant fresh(current) && current.Valid() && current !in suites
      invariant Filling(tests, maxTime, cap, closed, current.added, idx)
    {
      var t := tests[idx];
      if current.added == [] || current.totalRuntime + t.runtime <= maxTime {
        FillingAdds(tests, maxTime, cap, closed, current.added, idx);
      }
      if current.totalRuntime + t.runtime > maxTime {
        if |current.tests| > 0 {
          FillingCloses(tests, maxTime, cap, closed, current.added, idx);
          var next := StartNext(suites, current, closed);
          suites, closed, current := suites + [current], closed + [current.added], next;
          if maxSuites.Some? && maxSuites.value != 0 && |suites| >= maxSuites.value {
            last := idx;
            return;
          }
        }
      }
      AddToCurrent(suites, current, t, closed);
    }
    assert tests[|tests|..] == [];
  }

  lemma CapsInForce(tests: seq<Test>, maxTime: real, maxSuites: Option<int>)
    ensures maxSuites.None? || maxSuites.value == 0 || |Pack([], tests, maxTime)| <= maxSuites.value ==>
              Divided(tests, maxTime, maxSuites) == Pack([], tests, maxTime)
    ensures NonNegative(tests) ==> forall b :: IsPartition(b, tests, maxTime) ==> |Pack([], tests, maxTime)| <= |b|
  {
    UncappedIsGreedy(tests, maxTime);
    if maxSuites.Some? && maxSuites.value > 0 && |Pack([], tests, maxTime)| <= maxSuites.value {
      LargeCapIsGreedy(tests, maxTime, maxSuites.value);
    }
    forall b | NonNegative(tests) && IsPartition(b, tests, maxTime) ensures |Pack([], tests, maxTime)| <= |b| {
      GreedyIsOptimal(tests, b, maxTime);
    }
  }

  method DivideTestsIntoSuites(tests: seq<Test>, maxTime: real, maxSuites: Option<int>) returns (suites: seq<Suite>)
    ensures fresh(suites) && Holds(suites, Divided(tests, maxTime, maxSuites))
    ensures maxSuites.None? || maxSuites.value == 0 || |Pack([], tests, maxTime)| <= maxSuites.value ==>
              Holds(suites, Pack([], tests, maxTime))
    ensures NonNegative(tests) && (maxSuites.None? || maxSuites.value == 0) ==>
              forall b :: IsPartition(b, tests, maxTime) ==> |suites| <= |b|
  {
    CapsInForce(tests, maxTime, maxSuites);
    var current, last;
    ghost var closed;
    suites, current, last, closed := FillSuites(tests, maxTime, maxSuites);
    FilledIsDivided(tests, maxTime, maxSuites, closed, current.added, last);
    if |current.tests| > 0 {
      HoldsOneMore(suites, closed, current);
      suites := suites + [current];
    }
    if maxSuites.Some? && maxSuites.value != 0 && last < |tests| {
      DivideRemainingTestsAmongSuites(tests[last..], suites, closed);
    }
  }

  function Untimed(files: seq<string>): seq<Test> {
    seq(|files|, i requires 0 <= i < |files| => Test(files[i], 0.0))
  }

  method EmptySuites(numSuites: nat) returns (suites: seq<Suite>)
    ensures fresh(suites) && Holds(suites, seq(numSuites, _ => []))
  {
    suites := [];
    ghost var b: Suites := [];
    for i := 0 to numSuites
      invariant fresh(suites) && Holds(suites, b) && b == seq(i, _ => [])
    {
      var s := new Suite();
      HoldsOneMore(suites, b, s);
      suites, b := suites + [s], b + [[]];
    }
  }

  method DealUntimed(files: seq<string>, suites: seq<Suite>, ghost b: Suites)
    requires suites != [] && Holds(suites, b)
    modifies suites
    ensures Holds(suites, Spread(b, Untimed(files)))
  {
    ghost var tests := Untimed(files);
    SpreadNothing(b);
    for idx := 0 to |files|
      invariant Holds(suites, Spread(b, tests[..idx]))
    {
      ghost var now := Spread(b, tests[..idx]);
      AddToSuite(suites, idx % |suites|, files[idx], 0.0, now);
      PrefixOfPrefix(tests, idx);
      SpreadStep(b, tests[..idx + 1]);
    }
    assert tests[..|tests|] == tests;
  }

  /** Without runtime statistics: a fixed number of suites, dealt round-robin. */
  method CalculateFallbackSuites(numSuites: nat, files: seq<string>) returns (suites: seq<Suite>)
    requires numSuites > 0 || files == []
    ensures fresh(suites) && |suites| == numSuites
    ensures numSuites > 0 ==> Holds(suites, Spread(seq(numSuites, _ => []), Untimed(files)))
  {
    suites := EmptySuites(numSuites);
    if files != [] {
      DealUntimed(files, suites, seq(numSuites, _ => []));
    } else if numSuites > 0 {
      SpreadNothing(seq(numSuites, _ => []));
      assert Untimed(files) == [];
    }
  }
}
