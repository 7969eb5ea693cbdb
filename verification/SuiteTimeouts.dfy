/** Timeouts emitted for generated suites. */
module SuiteTimeouts {
  import opened Basics
  import opened SuitePartition
  import opened SuiteSplitter

  const MIN_TIMEOUT_SECONDS := 5 * 60

  function Ceiling(x: real): int {
    -((-x).Floor)
  }

  /** Python's `x % 60`. */
  function ModMinute(x: real): real {
    x - 60.0 * ((x / 60.0).Floor as real)
  }

  function RoundToMinute(runtime: real): int {
    Ceiling(runtime + (60.0 - ModMinute(runtime)))
  }

  function CalculateTimeout(avgRuntime: real, scalingFactor: int): int {
    var minutes := RoundToMinute(avgRuntime);
    (if minutes > MIN_TIMEOUT_SECONDS then minutes else MIN_TIMEOUT_SECONDS) * scalingFactor
  }

  datatype TimeoutCommand = TimeoutCommand(timeout: Option<int>, execTimeout: Option<int>)

  /** Missing and zero runtimes set no timeout; with neither there is no command at all. */
  function TimeoutCommandFor(
      maxTestRuntime: Option<real>, suiteRuntime: Option<real>, repeat: int): Option<TimeoutCommand> {
    var timeout := if Given(maxTestRuntime) then Some(CalculateTimeout(maxTestRuntime.value, 3) * repeat) else None;
    var execTimeout := if Given(suiteRuntime) then Some(CalculateTimeout(suiteRuntime.value, 3) * repeat) else None;
    if timeout.None? && execTimeout.None? then None else Some(TimeoutCommand(timeout, execTimeout))
  }

  predicate Given(runtime: Option<real>) {
    runtime.Some? && runtime.value != 0.0
  }

  /** The command generated for a suite that was given the tests `ts`. */
  function SuiteTimeoutCommand(ts: seq<Test>, repeat: int): Option<TimeoutCommand> {
    if AllTimed(ts) then TimeoutCommandFor(Some(Longest(ts)), Some(Total(ts)), repeat)
    else TimeoutCommandFor(None, None, repeat)
  }

  /** The timeouts of one generated task, from the fields of its suite. */
  method GenerateTimeouts(suite: Suite, repeat: int) returns (r: Option<TimeoutCommand>)
    requires suite.Valid()
    ensures r == SuiteTimeoutCommand(suite.added, repeat)
  {
    var maxRuntime, totalRuntime: Option<real> := None, None;
    var overwrite := suite.ShouldOverwriteTimeout();
    if overwrite {
      maxRuntime, totalRuntime := Some(suite.maxRuntime), Some(suite.totalRuntime);
    }
    r := TimeoutCommandFor(maxRuntime, totalRuntime, repeat);
  }

  /** Despite its name the rounding always moves on: to the first full minute after the runtime. */
  lemma RoundToMinuteIsNextMinute(runtime: real)
    ensures RoundToMinute(runtime) == 60 * ((runtime / 60.0).Floor + 1)
    ensures RoundToMinute(runtime) % 60 == 0
    ensures runtime < RoundToMinute(runtime) as real <= runtime + 60.0
  {
    var f := (runtime / 60.0).Floor;
    var minute := 60 * (f + 1);
    assert runtime + (60.0 - ModMinute(runtime)) == minute as real;
    assert (-(minute as real)).Floor == -minute;
    assert RoundToMinute(runtime) == minute;
  }

  lemma RoundToMinuteMonotone(a: real, b: real)
    requires a <= b
    ensures RoundToMinute(a) <= RoundToMinute(b)
  {
    assert RoundToMinute(a) == 60 * ((a / 60.0).Floor + 1) by { RoundToMinuteIsNextMinute(a); }
    assert RoundToMinute(b) == 60 * ((b / 60.0).Floor + 1) by { RoundToMinuteIsNextMinute(b); }
    FloorMonotone(a / 60.0, b / 60.0);
  }

  lemma FloorMonotone(x: real, y: real)
    requires x <= y
    ensures x.Floor <= y.Floor
  {}

  lemma {:induction false} LongestWithinTotal(ts: seq<Test>)
    requires NonNegative(ts)
    ensures 0.0 <= Longest(ts) <= Total(ts)
  {
    if ts != [] {
      LongestWithinTotal(ts[..|ts| - 1]);
    }
  }

  /** The longest runtime: an upper bound that is reached, or zero. */
  lemma {:induction false} LongestIsMaximum(ts: seq<Test>)
    ensures forall t :: t in ts ==> t.runtime <= Longest(ts)
    ensures Longest(ts) == 0.0 || exists t :: t in ts && t.runtime == Longest(ts)
  {
    if ts != [] {
      var init, last := ts[..|ts| - 1], ts[|ts| - 1];
      LongestIsMaximum(init);
      assert ts == init + [last] && last in ts;
      if Longest(init) != 0.0 {
        var t :| t in init && t.runtime == Longest(init);
        assert t in ts;
      }
    }
  }

  /** A whole number of minutes that covers `repeat` runs three times over. */
  ghost predicate Covers(timeout: int, runtime: real, repeat: int) {
    timeout % 60 == 0 && timeout as real > 3.0 * repeat as real * runtime
  }

  lemma ScaledStaysWhole(base: int, factor: int)
    requires base % 60 == 0
    ensures (base * factor) % 60 == 0
  {
    var q := base / 60;
    assert base == 60 * q;
    assert base * factor == 60 * (q * factor);
  }

  lemma {:induction false} ScaledStaysAbove(base: int, runtime: real, n: nat)
    requires base as real > runtime
    ensures (base * n) as real >= n as real * runtime
    ensures n > 0 ==> (base * n) as real > n as real * runtime
  {
    if n > 0 {
      ScaledStaysAbove(base, runtime, n - 1);
      assert base * n == base * (n - 1) + base;
      assert n as real * runtime == (n - 1) as real * runtime + runtime;
    }
  }

  lemma TimeoutCovers(runtime: real, repeat: int)
    requires repeat > 0
    ensures Covers(CalculateTimeout(runtime, 3) * repeat, runtime, repeat)
  {
    RoundToMinuteIsNextMinute(runtime);
    var m := RoundToMinute(runtime);
    var base := if m > MIN_TIMEOUT_SECONDS then m else MIN_TIMEOUT_SECONDS;
    ScaledStaysWhole(base, 3 * repeat);
    ScaledStaysAbove(base, runtime, 3 * repeat);
    assert base * 3 * repeat == base * (3 * repeat);
  }

  lemma TimeoutMonotone(a: real, b: real, repeat: int)
    requires repeat > 0 && a <= b
    ensures CalculateTimeout(a, 3) * repeat <= CalculateTimeout(b, 3) * repeat
  {
    RoundToMinuteMonotone(a, b);
  }

  lemma TimedIsPositive(ts: seq<Test>)
    requires NonNegative(ts) && ts != [] && AllTimed(ts)
    ensures Longest(ts) > 0.0
  {
    assert ts[|ts| - 1] in ts;
  }

  /** A command is emitted exactly for a non-empty suite whose tests all have runtimes, and sets both timeouts. */
  lemma SuiteTimeoutCommandShape(ts: seq<Test>, repeat: int)
    requires NonNegative(ts)
    ensures SuiteTimeoutCommand(ts, repeat) ==
            if ts != [] && AllTimed(ts)
            then Some(TimeoutCommand(Some(CalculateTimeout(Longest(ts), 3) * repeat),
                                     Some(CalculateTimeout(Total(ts), 3) * repeat)))
            else None
  {
    LongestWithinTotal(ts);
    if ts != [] && AllTimed(ts) {
      TimedIsPositive(ts);
    }
  }

  /** Three times the first full minute after the runtime, but at least three times five minutes. */
  lemma TimeoutInNumbers(runtime: real)
    ensures var minute := 60 * ((runtime / 60.0).Floor + 1);
            CalculateTimeout(runtime, 3) == 3 * (if minute > 300 then minute else 300)
    ensures CalculateTimeout(runtime, 3) >= 900
    ensures CalculateTimeout(runtime, 3) as real <= if runtime > 240.0 then 3.0 * (runtime + 60.0) else 900.0
  {
    RoundToMinuteIsNextMinute(runtime);
  }

  /** The timeouts of an emitted command, in numbers. */
  lemma SuiteTimeoutsInNumbers(ts: seq<Test>, repeat: int)
    requires NonNegative(ts) && ts != [] && AllTimed(ts)
    ensures var test, suite := 60 * ((Longest(ts) / 60.0).Floor + 1), 60 * ((Total(ts) / 60.0).Floor + 1);
            SuiteTimeoutCommand(ts, repeat) ==
            Some(TimeoutCommand(Some(3 * (if test > 300 then test else 300) * repeat),
                                Some(3 * (if suite > 300 then suite else 300) * repeat)))
  {
    SuiteTimeoutCommandShape(ts, repeat);
    TimeoutInNumbers(Longest(ts));
    TimeoutInNumbers(Total(ts));
  }

  /** Both timeouts of an emitted command are generous enough, and no test outlasts its suite. */
  lemma SuiteTimeoutsAreSound(ts: seq<Test>, repeat: int)
    requires NonNegative(ts) && repeat > 0 && SuiteTimeoutCommand(ts, repeat).Some?
    ensures var c := SuiteTimeoutCommand(ts, repeat).value;
            && c.timeout.Some? && Covers(c.timeout.value, Longest(ts), repeat)
            && c.execTimeout.Some? && Covers(c.execTimeout.value, Total(ts), repeat)
            && c.timeout.value <= c.execTimeout.value
  {
    LongestWithinTotal(ts);
    SuiteTimeoutCommandShape(ts, repeat);
    TimeoutCovers(Longest(ts), repeat);
    TimeoutCovers(Total(ts), repeat);
    TimeoutMonotone(Longest(ts), Total(ts), repeat);
  }
}
