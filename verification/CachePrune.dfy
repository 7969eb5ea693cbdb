/** Least-recently-used pruning of the build cache, where single removals may fail. */
module CachePrune {
  import opened Basics
  import opened Ordering

  const GIGABYTES := 1024 * 1024 * 1024

  datatype CacheItem = CacheItem(path: string, time: real, size: nat)

  /** What happens to the file of one attempt; only a full removal is taken off the tracked size. */
  datatype Removal = Removed | RenameFailed | RemoveFailed

  predicate NewestFirst(a: CacheItem, b: CacheItem) {
    a.time >= b.time
  }

  function Sizes(items: seq<CacheItem>): nat {
    if items == [] then 0 else Sizes(items[..|items| - 1]) + items[|items| - 1].size
  }

  /** Attempt j concerns the j-th oldest item of a list sorted newest first. */
  function Attempted(items: seq<CacheItem>, j: nat): CacheItem
    requires j < |items|
  {
    items[|items| - 1 - j]
  }

  /** The items gone after the first k attempts, oldest first. */
  function Evicted(items: seq<CacheItem>, outcome: nat -> Removal, k: nat): seq<CacheItem>
    requires k <= |items|
  {
    if k == 0 then []
    else Evicted(items, outcome, k - 1) + if outcome(k - 1) == Removed then [Attempted(items, k - 1)] else []
  }

  /** The items that were tried but are still there. */
  function Stuck(items: seq<CacheItem>, outcome: nat -> Removal, k: nat): seq<CacheItem>
    requires k <= |items|
  {
    if k == 0 then []
    else Stuck(items, outcome, k - 1) + if outcome(k - 1) == Removed then [] else [Attempted(items, k - 1)]
  }

  /** Items never tried, and items tried in vain. */
  function Survivors(items: seq<CacheItem>, outcome: nat -> Removal, k: nat): seq<CacheItem>
    requires k <= |items|
  {
    items[..|items| - k] + Stuck(items, outcome, k)
  }

  /** The size that is still accounted for after k attempts. */
  ghost function Tracked(items: seq<CacheItem>, outcome: nat -> Removal, k: nat): nat
    requires k <= |items|
  {
    Sizes(Survivors(items, outcome, k))
  }

  /** How trimming ends: at the first point below the target, or with nothing left to try. */
  ghost predicate Trimmed(items: seq<CacheItem>, target: real, outcome: nat -> Removal, ok: bool, tried: nat) {
    && tried <= |items|
    && (ok <==> Tracked(items, outcome, tried) as real < target)
    && (!ok ==> tried == |items|)
    && forall j :: 0 <= j < tried ==> Tracked(items, outcome, j) as real >= target
  }

  method Trim(items: seq<CacheItem>, target: real, outcome: nat -> Removal, total: int)
    returns (ok: bool, totalSize: int, tried: nat)
    requires total == Sizes(items)
    ensures Trimmed(items, target, outcome, ok, tried)
    ensures totalSize == Tracked(items, outcome, tried)
  {
    totalSize, tried := total, 0;
    var queue := items;
    assert Survivors(items, outcome, 0) == items;
    while totalSize as real >= target
      invariant 0 <= tried <= |items| && queue == items[..|items| - tried]
      invariant totalSize == Tracked(items, outcome, tried)
      invariant forall j :: 0 <= j < tried ==> Tracked(items, outcome, j) as real >= target
      decreases |queue|
    {
      if queue == [] {
        return false, totalSize, tried;
      }
      SurvivorsStep(items, outcome, tried);
      var item := queue[|queue| - 1];
      queue := queue[..|queue| - 1];
      if outcome(tried) == Removed {
        totalSize := totalSize - item.size;
      }
      tried := tried + 1;
    }
    ok := true;
  }

  /** Nothing happens below the quota; otherwise the oldest items go until the rest is below the target. */
  ghost predicate Pruned(
      contents: seq<CacheItem>, quota: int, target: real, outcome: nat -> Removal, ok: bool, totalSize: int, tried: nat)
  {
    var items := Sort(contents, NewestFirst);
    && tried <= |items| && totalSize == Tracked(items, outcome, tried)
    && if Sizes(contents) < quota then ok && tried == 0 else Trimmed(items, target, outcome, ok, tried)
  }

  method PruneTo(contents: seq<CacheItem>, quota: int, target: real, outcome: nat -> Removal)
    returns (ok: bool, totalSize: int, tried: nat)
    ensures Pruned(contents, quota, target, outcome, ok, totalSize, tried)
  {
    totalSize := TotalOf(contents);
    var items := Sort(contents, NewestFirst);
    SizesOfSort(contents);
    if totalSize >= quota {
      ok, totalSize, tried := Trim(items, target, outcome, totalSize);
    } else {
      ok, tried := true, 0;
      assert Survivors(items, outcome, 0) == items;
    }
  }

  /** The quota is given in gigabytes, the target as a share of it. */
  method PruneCache(contents: seq<CacheItem>, cacheSizeGb: int, cleanRatio: real, outcome: nat -> Removal)
    returns (ok: bool, totalSize: int, tried: nat, ghost quota: int, ghost target: real)
    ensures quota == cacheSizeGb * 1073741824 && target == quota as real * cleanRatio
    ensures Pruned(contents, quota, target, outcome, ok, totalSize, tried)
  {
    var cacheSize := cacheSizeGb * GIGABYTES;
    var share := cacheSize as real * cleanRatio;
    quota, target := cacheSize, share;
    ok, totalSize, tried := PruneTo(contents, cacheSize, share, outcome);
  }

  method TotalOf(items: seq<CacheItem>) returns (total: nat)
    ensures total == Sizes(items)
  {
    total := 0;
    for i := 0 to |items|
      invariant total == Sizes(items[..i])
    {
      assert items[..i + 1][..i] == items[..i];
      total := total + items[i].size;
    }
    assert items[..|items|] == items;
  }

  // ---- Sizes and contents --------------------------------------------------------------------------------

  lemma {:induction false} SizesAppend(a: seq<CacheItem>, b: seq<CacheItem>)
    ensures Sizes(a + b) == Sizes(a) + Sizes(b)
  {
    if b == [] {
      assert a + b == a;
    } else {
      SizesAppend(a, b[..|b| - 1]);
      assert (a + b)[..|a + b| - 1] == a + b[..|b| - 1];
    }
  }

  lemma {:induction false} SizesOfInsert(s: seq<CacheItem>, x: CacheItem)
    ensures Sizes(Insert(s, x, NewestFirst)) == Sizes(s) + x.size
  {
    var n := |s| - 1;
    if s == [] {
      SizesOfOne(x);
    } else if NewestFirst(s[n], x) {
      assert (s + [x])[..|s|] == s;
    } else {
      SizesOfInsert(s[..n], x);
      var front := Insert(s[..n], x, NewestFirst);
      assert (front + [s[n]])[..|front|] == front;
    }
  }

  lemma {:induction false} SizesOfSort(s: seq<CacheItem>)
    ensures Sizes(Sort(s, NewestFirst)) == Sizes(s)
  {
    if s != [] {
      var n := |s| - 1;
      SizesOfSort(s[..n]);
      SizesOfInsert(Sort(s[..n], NewestFirst), s[n]);
    }
  }

  lemma SizesOfOne(x: CacheItem)
    ensures Sizes([x]) == x.size
  {
    assert [x][..0] == [];
  }

  lemma SurvivorsStep(items: seq<CacheItem>, outcome: nat -> Removal, k: nat)
    requires k < |items|
    ensures Tracked(items, outcome, k) ==
            Tracked(items, outcome, k + 1) + if outcome(k) == Removed then Attempted(items, k).size else 0
  {
    var item := Attempted(items, k);
    var front, stuck := items[..|items| - k - 1], Stuck(items, outcome, k);
    assert items[..|items| - k] == front + [item];
    SizesAppend(front + [item], stuck);
    SizesAppend(front, [item]);
    SizesOfOne(item);
    SizesAppend(front, Stuck(items, outcome, k + 1));
    SizesAppend(stuck, [item]);
    assert stuck + [] == stuck;
  }

  ghost predicate SplitInto<T>(all: seq<T>, a: seq<T>, b: seq<T>) {
    multiset(a) + multiset(b) == multiset(all)
  }

  /** One more item goes either way. */
  lemma OneMoreAttempt<T>(all: seq<T>, stuck: seq<T>, evicted: seq<T>, x: T, removed: bool)
    requires SplitInto(all, stuck, evicted)
    ensures SplitInto([x] + all, stuck + if removed then [] else [x], evicted + if removed then [x] else [])
  {
    assert stuck + [] == stuck && evicted + [] == evicted;
  }

  /** The items concerned by the first k attempts. */
  function Tail(items: seq<CacheItem>, k: nat): seq<CacheItem>
    requires k <= |items|
  {
    items[|items| - k..]
  }

  lemma TailGrows(items: seq<CacheItem>, k: nat)
    requires 0 < k <= |items|
    ensures Tail(items, k) == [Attempted(items, k - 1)] + Tail(items, k - 1)
  {
    SplitAround(items, |items| - k);
  }

  lemma AttemptsGrow(items: seq<CacheItem>, outcome: nat -> Removal, k: nat)
    requires 0 < k <= |items|
    ensures var x, removed := Attempted(items, k - 1), outcome(k - 1) == Removed;
            && Stuck(items, outcome, k) == Stuck(items, outcome, k - 1) + (if removed then [] else [x])
            && Evicted(items, outcome, k) == Evicted(items, outcome, k - 1) + (if removed then [x] else [])
  {}

  lemma {:induction false} AttemptsPartition(
      items: seq<CacheItem>, outcome: nat -> Removal, k: nat, stuck: seq<CacheItem>, evicted: seq<CacheItem>)
    requires k <= |items| && stuck == Stuck(items, outcome, k) && evicted == Evicted(items, outcome, k)
    ensures SplitInto(Tail(items, k), stuck, evicted)
  {
    if k == 0 {
      assert Tail(items, 0) == [];
    } else {
      var x, removed := Attempted(items, k - 1), outcome(k - 1) == Removed;
      var stuck', evicted' := Stuck(items, outcome, k - 1), Evicted(items, outcome, k - 1);
      AttemptsPartition(items, outcome, k - 1, stuck', evicted');
      OneMoreAttempt(Tail(items, k - 1), stuck', evicted', x, removed);
      AttemptsGrow(items, outcome, k);
      TailGrows(items, k);
    }
  }

  /** After any attempts, in any pattern of failures, nothing is lost or counted twice. */
  lemma PruningConserves(items: seq<CacheItem>, outcome: nat -> Removal, k: nat)
    requires k <= |items|
    ensures multiset(Survivors(items, outcome, k)) + multiset(Evicted(items, outcome, k)) == multiset(items)
  {
    AttemptsPartition(items, outcome, k, Stuck(items, outcome, k), Evicted(items, outcome, k));
    assert items == items[..|items| - k] + Tail(items, k);
  }

  /** Nothing evicted is newer than anything that was never tried. */
  lemma {:induction false} EvictsOldest(
      contents: seq<CacheItem>, outcome: nat -> Removal, k: nat, gone: CacheItem, kept: CacheItem)
    requires k <= |Sort(contents, NewestFirst)|
    requires var items := Sort(contents, NewestFirst);
             gone in Evicted(items, outcome, k) && kept in items[..|items| - k]
    ensures gone.time <= kept.time
  {
    var items := Sort(contents, NewestFirst);
    SortSorts(contents, NewestFirst);
    EvictedWasAttempted(items, outcome, k, gone);
    var j :| 0 <= j < k && gone == Attempted(items, j);
    var i :| 0 <= i < |items| - k && items[i] == kept;
    assert NewestFirst(items[i], items[|items| - 1 - j]);
  }

  lemma {:induction false} EvictedWasAttempted(items: seq<CacheItem>, outcome: nat -> Removal, k: nat, gone: CacheItem)
    requires k <= |items| && gone in Evicted(items, outcome, k)
    ensures exists j :: 0 <= j < k && gone == Attempted(items, j)
  {
    if gone in Evicted(items, outcome, k - 1) {
      EvictedWasAttempted(items, outcome, k - 1, gone);
    }
  }

  /** When every removal succeeds, what survives k attempts is everything but the k oldest items. */
  lemma {:induction false} SuccessfulRemovals(items: seq<CacheItem>, outcome: nat -> Removal, k: nat)
    requires k <= |items| && forall j :: outcome(j) == Removed
    ensures Survivors(items, outcome, k) == items[..|items| - k]
  {
    if k > 0 {
      SuccessfulRemovals(items, outcome, k - 1);
      assert |Survivors(items, outcome, k - 1)| == |items| - (k - 1);
    }
  }

  /** When every removal succeeds, no shorter oldest-first eviction would have reached the target. */
  lemma NoShorterEviction(items: seq<CacheItem>, target: real, outcome: nat -> Removal, ok: bool, tried: nat, k: nat)
    requires Trimmed(items, target, outcome, ok, tried) && k < tried && forall j :: outcome(j) == Removed
    ensures Sizes(items[..|items| - k]) as real >= target
  {
    SuccessfulRemovals(items, outcome, k);
    assert Tracked(items, outcome, k) as real >= target;
  }
}
