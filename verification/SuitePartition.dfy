/** Splitting a list of timed tests into suites: the greedy rule, its optimality and the cap. */
module SuitePartition {

  datatype Test = Test(file: string, runtime: real)

  type Suites = seq<seq<Test>>

  function Total(ts: seq<Test>): real {
    if ts == [] then 0.0 else Total(ts[..|ts| - 1]) + ts[|ts| - 1].runtime
  }

  /** Continue packing `ts` with `current` as the suite being filled. */
  function Pack(current: seq<Test>, ts: seq<Test>, limit: real): Suites
    decreases |ts|
  {
    if ts == [] then if current == [] then [] else [current]
    else if current != [] && Total(current) + ts[0].runtime > limit then [current] + Pack([ts[0]], ts[1..], limit)
    else Pack(current + [ts[0]], ts[1..], limit)
  }

  function Flatten(b: Suites): seq<Test> {
    if b == [] then [] else b[0] + Flatten(b[1..])
  }

  ghost predicate NonNegative(ts: seq<Test>) {
    forall t :: t in ts ==> t.runtime >= 0.0
  }

  /** A suite the splitter may produce: within the limit, or a single test. */
  ghost predicate Fits(b: seq<Test>, limit: real) {
    b != [] && (Total(b) <= limit || |b| == 1)
  }

  /** A way to cut `ts` into consecutive suites. */
  ghost predicate IsPartition(b: Suites, ts: seq<Test>, limit: real) {
    Flatten(b) == ts && forall i :: 0 <= i < |b| ==> Fits(b[i], limit)
  }

  // ---- Totals --------------------------------------------------------------------------------------

  lemma TotalGrows(ts: seq<Test>, t: Test)
    ensures Total(ts + [t]) == Total(ts) + t.runtime
  {
    assert (ts + [t])[..|ts|] == ts;
  }

  lemma {:induction false} TotalAppends(a: seq<Test>, b: seq<Test>)
    ensures Total(a + b) == Total(a) + Total(b)
  {
    if b == [] {
      assert a + b == a;
    } else {
      TotalAppends(a, b[..|b| - 1]);
      assert (a + b)[..|a + b| - 1] == a + b[..|b| - 1];
    }
  }

  lemma {:induction false} TotalNonNegative(ts: seq<Test>)
    requires NonNegative(ts)
    ensures Total(ts) >= 0.0
  {
    if ts != [] {
      TotalNonNegative(ts[..|ts| - 1]);
    }
  }

  // ---- The greedy result is a partition ---------------------------------------------------------------

  lemma {:induction false} PackKeepsTests(current: seq<Test>, ts: seq<Test>, limit: real)
    ensures Flatten(Pack(current, ts, limit)) == current + ts
    decreases |ts|
  {
    if ts == [] {
      if current != [] {
        FlattenCons(current, []);
      }
    } else if current != [] && Total(current) + ts[0].runtime > limit {
      PackKeepsTests([ts[0]], ts[1..], limit);
      FlattenCons(current, Pack([ts[0]], ts[1..], limit));
      assert ts == [ts[0]] + ts[1..];
    } else {
      PackKeepsTests(current + [ts[0]], ts[1..], limit);
      assert current + [ts[0]] + ts[1..] == current + ts;
    }
  }

  lemma FlattenCons(b: seq<Test>, rest: Suites)
    ensures Flatten([b] + rest) == b + Flatten(rest)
  {
    assert ([b] + rest)[1..] == rest;
  }

  lemma {:induction false} PackFits(current: seq<Test>, ts: seq<Test>, limit: real)
    requires current == [] || Fits(current, limit)
    ensures forall i :: 0 <= i < |Pack(current, ts, limit)| ==> Fits(Pack(current, ts, limit)[i], limit)
    decreases |ts|
  {
    if ts != [] {
      if current != [] && Total(current) + ts[0].runtime > limit {
        PackFits([ts[0]], ts[1..], limit);
      } else {
        TotalGrows(current, ts[0]);
        PackFits(current + [ts[0]], ts[1..], limit);
      }
    }
  }

  /** The splitter without a cap cuts the tests, in order, into suites that fit. */
  lemma GreedyIsPartition(ts: seq<Test>, limit: real)
    ensures IsPartition(Pack([], ts, limit), ts, limit)
  {
    PackKeepsTests([], ts, limit);
    PackFits([], ts, limit);
    assert [] + ts == ts;
  }

  // ---- No partition has fewer suites ------------------------------------------------------------------

  /** A fuller current suite costs at least as many suites, and at most one more. */
  lemma {:induction false} PackMonotone(c: seq<Test>, d: seq<Test>, ts: seq<Test>, limit: real)
    requires c != [] && d != [] && 0.0 <= Total(c) <= Total(d) && NonNegative(ts)
    ensures |Pack(c, ts, limit)| <= |Pack(d, ts, limit)| <= |Pack(c, ts, limit)| + 1
    decreases |ts|
  {
    if ts != [] {
      assert NonNegative(ts[1..]);
      var t := ts[0];
      TotalGrows(c, t);
      TotalGrows(d, t);
      TotalGrows([], t);
      assert [] + [t] == [t];
      if Total(d) + t.runtime <= limit {
        PackMonotone(c + [t], d + [t], ts[1..], limit);
      } else if Total(c) + t.runtime <= limit {
        PackMonotone([t], c + [t], ts[1..], limit);
      }
    }
  }

  lemma ClosingCostsOne(c: seq<Test>, ts: seq<Test>, limit: real)
    requires c != [] && NonNegative(c) && NonNegative(ts)
    ensures |Pack(c, ts, limit)| <= 1 + |Pack([], ts, limit)|
  {
    if ts != [] {
      var t := ts[0];
      assert NonNegative(ts[1..]) && [] + [t] == [t];
      TotalGrows(c, t);
      TotalGrows([], t);
      TotalNonNegative(c);
      PackMonotone([t], c + [t], ts[1..], limit);
    }
  }

  lemma {:induction false} PackAbsorbs(c: seq<Test>, b: seq<Test>, ts: seq<Test>, limit: real)
    requires NonNegative(b) && Total(c + b) <= limit
    ensures Pack(c, b + ts, limit) == Pack(c + b, ts, limit)
    decreases |b|
  {
    if b == [] {
      assert c + b == c && b + ts == ts;
    } else {
      assert NonNegative(b[1..]);
      var c1 := c + [b[0]];
      assert c1 + b[1..] == c + b && (b + ts)[1..] == b[1..] + ts;
      TotalGrows(c, b[0]);
      TotalAppends(c1, b[1..]);
      TotalNonNegative(b[1..]);
      PackAbsorbs(c1, b[1..], ts, limit);
    }
  }

  lemma PackAbsorbsSuite(b: seq<Test>, ts: seq<Test>, limit: real)
    requires NonNegative(b) && Fits(b, limit)
    ensures Pack([], b + ts, limit) == Pack(b, ts, limit)
  {
    assert [] + b == b;
    if Total(b) <= limit {
      PackAbsorbs([], b, ts, limit);
    } else {
      assert (b + ts)[1..] == ts && [] + [b[0]] == b;
    }
  }

  /** The greedy splitter is optimal among all partitions into consecutive suites. */
  lemma {:induction false} GreedyIsOptimal(ts: seq<Test>, b: Suites, limit: real)
    requires NonNegative(ts) && IsPartition(b, ts, limit)
    ensures |Pack([], ts, limit)| <= |b|
    decreases |b|
  {
    if b != [] {
      var rest := Flatten(b[1..]);
      assert ts == b[0] + rest;
      assert NonNegative(b[0]) && NonNegative(rest);
      assert Fits(b[0], limit);
      PackAbsorbsSuite(b[0], rest, limit);
      ClosingCostsOne(b[0], rest, limit);
      assert IsPartition(b[1..], rest, limit);
      GreedyIsOptimal(rest, b[1..], limit);
    }
  }

  // ---- Against assignments in any order -----------------------------------------------------------------

  /** What suite `bin` holds under an assignment of every test to a suite. */
  ghost function Load(ts: seq<Test>, assign: seq<nat>, bin: nat): real
    requires |assign| == |ts|
  {
    if ts == [] then 0.0
    else
      var n := |ts| - 1;
      Load(ts[..n], assign[..n], bin) + if assign[n] == bin then ts[n].runtime else 0.0
  }

  ghost predicate FitsInto(ts: seq<Test>, assign: seq<nat>, m: nat, limit: real) {
    && |assign| == |ts|
    && (forall i :: 0 <= i < |assign| ==> assign[i] < m)
    && (forall bin :: 0 <= bin < m ==> Load(ts, assign, bin) <= limit)
  }

  ghost function LoadSum(ts: seq<Test>, assign: seq<nat>, m: nat): real
    requires |assign| == |ts|
  {
    if m == 0 then 0.0 else LoadSum(ts, assign, m - 1) + Load(ts, assign, m - 1)
  }

  lemma {:induction false} LoadSumStep(ts: seq<Test>, assign: seq<nat>, m: nat)
    requires |assign| == |ts| && ts != []
    ensures var n := |ts| - 1;
            LoadSum(ts, assign, m) == LoadSum(ts[..n], assign[..n], m) + if assign[n] < m then ts[n].runtime else 0.0
  {
    if m > 0 {
      LoadSumStep(ts, assign, m - 1);
    }
  }

  lemma {:induction false} EmptyLoadSum(m: nat)
    ensures LoadSum([], [], m) == 0.0
  {
    if m > 0 {
      EmptyLoadSum(m - 1);
    }
  }

  lemma {:induction false} LoadSumIsTotal(ts: seq<Test>, assign: seq<nat>, m: nat)
    requires |assign| == |ts| && forall i :: 0 <= i < |assign| ==> assign[i] < m
    ensures LoadSum(ts, assign, m) == Total(ts)
    decreases |ts|
  {
    if ts == [] {
      assert assign == [];
      EmptyLoadSum(m);
    } else {
      LoadSumStep(ts, assign, m);
      LoadSumIsTotal(ts[..|ts| - 1], assign[..|ts| - 1], m);
    }
  }

  lemma {:induction false} LoadSumBounded(ts: seq<Test>, assign: seq<nat>, m: nat, limit: real)
    requires |assign| == |ts| && forall bin :: 0 <= bin < m ==> Load(ts, assign, bin) <= limit
    ensures LoadSum(ts, assign, m) <= Times(m, limit)
  {
    if m > 0 {
      LoadSumBounded(ts, assign, m - 1, limit);
    }
  }

  ghost function Times(n: nat, x: real): real {
    if n == 0 then 0.0 else Times(n - 1, x) + x
  }

  lemma {:induction false} TimesMonotone(m: nat, n: nat, x: real)
    requires m <= n && x >= 0.0
    ensures Times(m, x) <= Times(n, x)
    decreases n
  {
    if m < n {
      TimesMonotone(m, n - 1, x);
    }
  }

  /** No two neighbouring suites could have been one. */
  ghost predicate NeighboursExceed(b: Suites, limit: real) {
    forall i :: 0 <= i < |b| - 1 ==> Total(b[i]) + Total(b[i + 1]) > limit
  }

  /** The suite being filled only grows. */
  lemma {:induction false} PackStartsWith(current: seq<Test>, ts: seq<Test>, limit: real)
    requires current != [] && NonNegative(ts)
    ensures Pack(current, ts, limit) != [] && Total(Pack(current, ts, limit)[0]) >= Total(current)
    decreases |ts|
  {
    if ts != [] {
      assert NonNegative(ts[1..]);
      TotalGrows(current, ts[0]);
      if Total(current) + ts[0].runtime <= limit {
        PackStartsWith(current + [ts[0]], ts[1..], limit);
      }
    }
  }

  lemma {:induction false} GreedyNeighboursExceed(current: seq<Test>, ts: seq<Test>, limit: real)
    requires NonNegative(ts)
    ensures NeighboursExceed(Pack(current, ts, limit), limit)
    decreases |ts|
  {
    if ts != [] {
      assert NonNegative(ts[1..]);
      if current != [] && Total(current) + ts[0].runtime > limit {
        var rest := Pack([ts[0]], ts[1..], limit);
        GreedyNeighboursExceed([ts[0]], ts[1..], limit);
        PackStartsWith([ts[0]], ts[1..], limit);
        TotalGrows([], ts[0]);
        assert [] + [ts[0]] == [ts[0]];
        var b := [current] + rest;
        forall i | 0 <= i < |b| - 1 ensures Total(b[i]) + Total(b[i + 1]) > limit {
          if i > 0 {
            assert b[i] == rest[i - 1] && b[i + 1] == rest[i];
          }
        }
      } else {
        GreedyNeighboursExceed(current + [ts[0]], ts[1..], limit);
      }
    }
  }

  lemma FlattenTwo(b: Suites)
    requires |b| >= 2
    ensures Flatten(b) == b[0] + (b[1] + Flatten(b[2..]))
    ensures Total(Flatten(b)) == Total(b[0]) + Total(b[1]) + Total(Flatten(b[2..]))
  {
    assert b[1..][1..] == b[2..];
    var tail := Flatten(b[2..]);
    TotalAppends(b[0], b[1] + tail);
    TotalAppends(b[1], tail);
  }

  /** Pairing up neighbours: k suites hold more than floor(k/2) limits between them. */
  lemma {:induction false} PairsExceed(b: Suites, limit: real)
    requires NeighboursExceed(b, limit) && NonNegative(Flatten(b))
    ensures Total(Flatten(b)) >= Times(|b| / 2, limit)
    ensures |b| >= 2 ==> Total(Flatten(b)) > Times(|b| / 2, limit)
    decreases |b|
  {
    if |b| < 2 {
      TotalNonNegative(Flatten(b));
    } else {
      var rest := b[2..];
      FlattenTwo(b);
      assert NeighboursExceed(rest, limit) by {
        forall i | 0 <= i < |rest| - 1 ensures Total(rest[i]) + Total(rest[i + 1]) > limit {
          assert rest[i] == b[i + 2] && rest[i + 1] == b[(i + 2) + 1];
        }
      }
      PairsExceed(rest, limit);
      assert |b| / 2 == |rest| / 2 + 1;
      assert Total(b[0]) + Total(b[0 + 1]) > limit;
    }
  }

  lemma {:induction false} LoadNonNegative(ts: seq<Test>, assign: seq<nat>, bin: nat)
    requires |assign| == |ts| && NonNegative(ts)
    ensures Load(ts, assign, bin) >= 0.0
  {
    if ts != [] {
      LoadNonNegative(ts[..|ts| - 1], assign[..|ts| - 1], bin);
    }
  }

  /** Whatever assignment fits into m suites, the greedy splitter needs at most 2m-1. */
  lemma GreedyWithinTwice(ts: seq<Test>, assign: seq<nat>, m: nat, limit: real)
    requires NonNegative(ts) && ts != [] && FitsInto(ts, assign, m, limit)
    ensures |Pack([], ts, limit)| <= 2 * m - 1
  {
    var b := Pack([], ts, limit);
    assert Flatten(b) == ts by {
      PackKeepsTests([], ts, limit);
      assert [] + ts == ts;
    }
    assert Total(ts) <= Times(m, limit) by {
      LoadSumIsTotal(ts, assign, m);
      LoadSumBounded(ts, assign, m, limit);
    }
    assert assign[0] < m;
    LoadNonNegative(ts, assign, 0);
    if |b| >= 2 * m {
      GreedyNeighboursExceed([], ts, limit);
      PairsExceed(b, limit);
      TimesMonotone(m, |b| / 2, limit);
    }
  }
}
