/** The cap on the number of suites: overflow tests are dealt out round-robin. */
module CappedSuites {
  import opened Basics
  import opened SuitePartition

  /** Every k-th test of `rem`, starting with the i-th. */
  function Slice(rem: seq<Test>, i: nat, k: nat): seq<Test>
    requires k > 0
  {
    if rem == [] then []
    else
      var n := |rem| - 1;
      Slice(rem[..n], i, k) + if n % k == i then [rem[n]] else []
  }

  function Spread(b: Suites, rem: seq<Test>): (r: Suites)
    requires b != []
    ensures |r| == |b|
  {
    seq(|b|, i requires 0 <= i < |b| => b[i] + Slice(rem, i, |b|))
  }

  /** A cap of 0 or None is no cap, and a negative one acts like 1. */
  function EffectiveCap(cap: Option<int>): (r: Option<nat>)
    ensures r.Some? ==> r.value > 0
  {
    if cap.None? || cap.value == 0 then None
    else if cap.value < 0 then Some(1) else Some(cap.value)
  }

  /** What the splitter returns. */
  function Divided(ts: seq<Test>, limit: real, cap: Option<int>): Suites {
    var uncapped := Pack([], ts, limit);
    match EffectiveCap(cap)
    case None => uncapped
    case Some(k) => if |uncapped| <= k then uncapped else Spread(uncapped[..k], Flatten(uncapped[k..]))
  }

  // ---- What caps amount to ------------------------------------------------------------------------------

  /** Without a cap, or with a cap of 0, the suites are the greedy ones. */
  lemma UncappedIsGreedy(ts: seq<Test>, limit: real)
    ensures Divided(ts, limit, None) == Divided(ts, limit, Some(0)) == Pack([], ts, limit)
  {}

  /** A positive cap that is not passed changes nothing. */
  lemma LargeCapIsGreedy(ts: seq<Test>, limit: real, k: int)
    requires k > 0 && k >= |Pack([], ts, limit)|
    ensures Divided(ts, limit, Some(k)) == Pack([], ts, limit)
  {}

  /** A positive cap that is passed keeps the first k suites and deals the other tests out among them. */
  lemma SmallCapSpreads(ts: seq<Test>, limit: real, k: nat)
    requires 0 < k < |Pack([], ts, limit)|
    ensures var u := Pack([], ts, limit); Divided(ts, limit, Some(k)) == Spread(u[..k], Flatten(u[k..]))
  {}

  lemma {:induction false} SliceOfOne(rem: seq<Test>)
    ensures Slice(rem, 0, 1) == rem
  {
    if rem != [] {
      SliceOfOne(rem[..|rem| - 1]);
    }
  }

  /** A cap of 1 or less, except 0, puts all tests into one suite, in order. */
  lemma SmallestCap(ts: seq<Test>, limit: real, k: int)
    requires k == 1 || k < 0
    ensures Divided(ts, limit, Some(k)) == if ts == [] then [] else [ts]
  {
    var u := Pack([], ts, limit);
    GreedyIsPartition(ts, limit);
    if |u| > 1 {
      var rem := Flatten(u[1..]);
      SliceOfOne(rem);
      assert Flatten(u) == u[0] + rem;
      assert u[..1] == [u[0]];
      assert Divided(ts, limit, Some(k)) == [u[0] + rem];
    } else if |u| == 1 {
      assert u == [u[0]] && Flatten(u[1..]) == [];
      assert Flatten(u) == u[0] + [] == u[0];
    }
  }

  lemma DivStep(n: nat, k: nat)
    requires k > 0
    ensures if n % k + 1 < k then (n + 1) / k == n / k && (n + 1) % k == n % k + 1
            else (n + 1) / k == n / k + 1 && (n + 1) % k == 0
  {
    var q, r := n / k, n % k;
    assert n == k * q + r;
    if r + 1 < k {
      DivUnique(n + 1, k, q, r + 1);
    } else {
      assert n + 1 == k * (q + 1);
      DivUnique(n + 1, k, q + 1, 0);
    }
  }

  lemma MultipleIsFar(k: nat, d: int)
    ensures d >= 1 ==> k * d >= k
    ensures d <= -1 ==> k * d <= 0 - k
  {}

  lemma DivUnique(n: nat, k: nat, q: nat, r: nat)
    requires k > 0 && r < k && n == k * q + r
    ensures n / k == q && n % k == r
  {
    var d := q - n / k;
    assert k * d == n % k - r;
    MultipleIsFar(k, d);
  }

  ghost function Nth(i: nat, k: nat, j: nat): nat {
    i + k * j
  }

  /** Slices are as even as they can be. */
  lemma {:induction false} SliceLength(rem: seq<Test>, i: nat, k: nat)
    requires i < k
    ensures |Slice(rem, i, k)| == |rem| / k + if i < |rem| % k then 1 else 0
  {
    if rem == [] {
      DivUnique(0, k, 0, 0);
    } else {
      SliceLength(rem[..|rem| - 1], i, k);
      DivStep(|rem| - 1, k);
    }
  }

  /** A slice takes every k-th test in order. */
  lemma {:induction false} SliceEntries(rem: seq<Test>, i: nat, k: nat)
    requires i < k
    ensures forall j :: 0 <= j < |Slice(rem, i, k)| ==>
              Nth(i, k, j) < |rem| && Slice(rem, i, k)[j] == rem[Nth(i, k, j)]
  {
    if rem != [] {
      var n := |rem| - 1;
      SliceEntries(rem[..n], i, k);
      if n % k == i {
        SliceLength(rem[..n], i, k);
        assert Nth(i, k, n / k) == n;
      }
    }
  }

  lemma {:induction false} FlattenUpdate(b: Suites, i: nat, t: Test)
    requires i < |b|
    ensures multiset(Flatten(b[i := b[i] + [t]])) == multiset(Flatten(b)) + multiset{t}
  {
    var c := b[i := b[i] + [t]];
    if i == 0 {
      assert c[1..] == b[1..];
      assert Flatten(c) == b[0] + [t] + Flatten(b[1..]);
    } else {
      FlattenUpdate(b[1..], i - 1, t);
      assert c[1..] == b[1..][i - 1 := b[1..][i - 1] + [t]];
      assert multiset(Flatten(c)) == multiset(b[0]) + multiset(Flatten(c[1..]));
    }
  }

  lemma SpreadStep(b: Suites, rem: seq<Test>)
    requires b != [] && rem != []
    ensures var n := |rem| - 1; var before := Spread(b, rem[..n]); var i := n % |b|;
            Spread(b, rem) == before[i := before[i] + [rem[n]]]
  {
    var n := |rem| - 1;
    var before, i := Spread(b, rem[..n]), n % |b|;
    var after := before[i := before[i] + [rem[n]]];
    forall j | 0 <= j < |b| ensures Spread(b, rem)[j] == after[j] {
      assert Slice(rem, j, |b|) == Slice(rem[..n], j, |b|) + if i == j then [rem[n]] else [];
    }
  }

  lemma SpreadNothing(b: Suites)
    requires b != []
    ensures Spread(b, []) == b
  {
    forall i | 0 <= i < |b| ensures Spread(b, [])[i] == b[i] {
      assert Slice([], i, |b|) == [];
    }
  }

  lemma {:induction false} SpreadKeepsTests(b: Suites, rem: seq<Test>)
    requires b != []
    ensures multiset(Flatten(Spread(b, rem))) == multiset(Flatten(b)) + multiset(rem)
    decreases |rem|
  {
    if rem == [] {
      SpreadNothing(b);
    } else {
      var n := |rem| - 1;
      var before := Spread(b, rem[..n]);
      assert multiset(Flatten(before)) == multiset(Flatten(b)) + multiset(rem[..n]) by {
        SpreadKeepsTests(b, rem[..n]);
      }
      assert multiset(Flatten(Spread(b, rem))) == multiset(Flatten(before)) + multiset{rem[n]} by {
        SpreadStep(b, rem);
        FlattenUpdate(before, n % |b|, rem[n]);
      }
      assert multiset(rem) == multiset(rem[..n]) + multiset{rem[n]} by {
        assert rem == rem[..n] + [rem[n]];
      }
    }
  }

  lemma {:induction false} FlattenSplits(b: Suites, k: nat)
    requires k <= |b|
    ensures Flatten(b) == Flatten(b[..k]) + Flatten(b[k..])
  {
    if k == 0 {
      assert b[..0] == [] && b[0..] == b;
    } else {
      FlattenSplits(b[1..], k - 1);
      assert b[..k][1..] == b[1..][..k - 1] && b[1..][k - 1..] == b[k..];
    }
  }

  /** Under any cap every test is kept exactly once, no suite is empty and the cap is respected. */
  lemma DividedKeepsTests(ts: seq<Test>, limit: real, cap: Option<int>)
    ensures var r := Divided(ts, limit, cap);
            && multiset(Flatten(r)) == multiset(ts)
            && (forall i :: 0 <= i < |r| ==> r[i] != [])
            && (cap.Some? && cap.value > 0 ==> |r| <= cap.value)
  {
    var u := Pack([], ts, limit);
    GreedyIsPartition(ts, limit);
    var cap' := EffectiveCap(cap);
    if cap'.Some? && |u| > cap'.value {
      var k := cap'.value;
      FlattenSplits(u, k);
      SpreadKeepsTests(u[..k], Flatten(u[k..]));
      forall i | 0 <= i < k ensures Divided(ts, limit, cap)[i] != [] {
        assert Fits(u[i], limit);
      }
    }
  }

  /** When the cap bites, suite i is the uncapped suite i plus a slice, and slices differ by at most one. */
  lemma CappedSuitesAreEven(ts: seq<Test>, limit: real, k: nat)
    requires 0 < k < |Pack([], ts, limit)|
    ensures var u, r := Pack([], ts, limit), Divided(ts, limit, Some(k));
            && |r| == k
            && (forall i :: 0 <= i < k ==> u[i] <= r[i])
            && (forall i, j :: 0 <= i < k && 0 <= j < k ==> |r[i]| - |u[i]| <= |r[j]| - |u[j]| + 1)
  {
    var u, r := Pack([], ts, limit), Divided(ts, limit, Some(k));
    var rem := Flatten(u[k..]);
    forall i | 0 <= i < k ensures r[i] == u[i] + Slice(rem, i, k) && |r[i]| - |u[i]| - |rem| / k in {0, 1} {
      SliceLength(rem, i, k);
    }
  }
}
