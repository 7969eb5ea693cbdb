/** The caches kept on nodes, and why queries through them answer like queries without them. */
module DependencyCaches {
  import opened Ordering
  import opened DependencyGraph

  predicate ByPath(a: Dependency, b: Dependency) {
    StringLe(a.target.path, b.target.path)
  }

  lemma ByPathIsPreorder()
    ensures TotalPreorder(ByPath)
  {
    forall x, y ensures ByPath(x, y) || ByPath(y, x) {
      StringLeTotal(x.target.path, y.target.path);
    }
    forall x, y, z | ByPath(x, y) && ByPath(y, z) ensures ByPath(x, z) {
      StringLeTransitive(x.target.path, y.target.path, z.target.path);
    }
  }

  /** The attributes of all nodes, `libdeps_exploring` aside. */
  datatype State = State(direct: Graph, directSorted: Graph, cached: map<Node, seq<Node>>)

  /** What reading the sorted dependencies of `n` yields; an empty cached list counts as missing. */
  function SortedDirect(st: State, n: Node): seq<Dependency> {
    if n in st.directSorted && st.directSorted[n] != [] then st.directSorted[n]
    else Sort(Direct(st.direct, n), ByPath)
  }

  /** The graph that a query traverses in this state, whether or not its caches are stale. */
  function Effective(st: State): Graph {
    map n | n in st.direct :: SortedDirect(st, n)
  }

  /** True of every state the operations produce: a list is only cached for a declared node. */
  ghost predicate WellFormed(st: State) {
    forall n :: n in st.directSorted && st.directSorted[n] != [] ==> n in st.direct
  }

  lemma EffectiveReads(st: State, n: Node)
    requires WellFormed(st)
    ensures Direct(Effective(st), n) == SortedDirect(st, n)
  {}

  function AfterReading(st: State, read: set<Node>): State {
    st.(directSorted := st.directSorted + map m | m in read :: SortedDirect(st, m))
  }

  lemma ReadingIsTransparent(st: State, read: set<Node>)
    requires WellFormed(st)
    ensures WellFormed(AfterReading(st, read))
    ensures Effective(AfterReading(st, read)) == Effective(st)
    ensures forall n :: SortedDirect(AfterReading(st, read), n) == SortedDirect(st, n)
  {}

  lemma ReadingOneMore(st: State, read: set<Node>, n: Node)
    ensures AfterReading(st, read).directSorted[n := SortedDirect(st, n)] == AfterReading(st, read + {n}).directSorted
  {
    RecordOneMore(st.directSorted, m => SortedDirect(st, m), read, n);
  }

  lemma RecordOneMore<K, V>(base: map<K, V>, value: K -> V, keys: set<K>, k: K)
    ensures (base + map m | m in keys :: value(m))[k := value(k)] == base + map m | m in keys + {k} :: value(m)
  {}

  function QueryAnswer(st: State, n: Node): Answer {
    if n in st.cached then Sorted(st.cached[n]) else Resolve(Effective(st), n)
  }

  function AfterQuery(st: State, n: Node): State {
    if n in st.cached then st
    else
      var st' := AfterReading(st, ResolveVisit(Effective(st), n).read);
      match Resolve(Effective(st), n)
      case Sorted(libs) => st'.(cached := st'.cached[n := libs])
      case CycleError(_) => st'
  }

  function AfterAppend(st: State, n: Node, deps: seq<Dependency>): State {
    st.(direct := st.direct[n := Direct(st.direct, n) + deps])
  }

  // ---- Sessions: any interleaving of declarations and queries ---------------------------------

  datatype Op = Append(node: Node, deps: seq<Dependency>) | Query(node: Node)

  function Step(st: State, op: Op): State {
    match op
    case Append(n, deps) => AfterAppend(st, n, deps)
    case Query(n) => AfterQuery(st, n)
  }

  /** The answers given to the queries of `ops`, in order. */
  function Answers(st: State, ops: seq<Op>): seq<Answer>
    decreases |ops|
  {
    if ops == [] then []
    else (if ops[0].Query? then [QueryAnswer(st, ops[0].node)] else []) + Answers(Step(st, ops[0]), ops[1..])
  }

  /** A list of sorted dependencies is in use for `n`; an empty one is not. */
  predicate Recorded(st: State, n: Node) {
    n in st.directSorted && st.directSorted[n] != []
  }

  /** Nothing that is kept on nodes rests on the dependencies of `n`. */
  ghost predicate MayAppend(st: State, n: Node) {
    !Recorded(st, n) && n !in st.cached && forall c :: c in st.cached ==> n !in st.cached[c]
  }

  /** Dependencies are only appended where nothing kept on nodes rests on them. */
  ghost predicate Disciplined(st: State, ops: seq<Op>)
    decreases |ops|
  {
    ops == [] ||
    (&& (ops[0].Append? ==> MayAppend(st, ops[0].node))
     && Disciplined(Step(st, ops[0]), ops[1..]))
  }

  function Ordered(direct: Graph): Graph {
    map n | n in direct :: Sort(direct[n], ByPath)
  }

  /** The answer computed from the declarations alone. */
  function UncachedAnswer(direct: Graph, n: Node): Answer {
    Resolve(Ordered(direct), n)
  }

  function UncachedAnswers(direct: Graph, ops: seq<Op>): seq<Answer>
    decreases |ops|
  {
    if ops == [] then []
    else
      match ops[0]
      case Append(n, deps) => UncachedAnswers(direct[n := Direct(direct, n) + deps], ops[1..])
      case Query(n) => [UncachedAnswer(direct, n)] + UncachedAnswers(direct, ops[1..])
  }

  /** Everything kept on nodes is what the declarations call for. */
  ghost predicate Coherent(st: State) {
    && (forall n :: Recorded(st, n) ==> st.directSorted[n] == Sort(Direct(st.direct, n), ByPath))
    && (forall n :: n in st.cached ==> UncachedAnswer(st.direct, n) == Sorted(st.cached[n]))
  }

  lemma CoherentTraversesDeclarations(st: State)
    requires Coherent(st)
    ensures Effective(st) == Ordered(st.direct) && WellFormed(st)
  {
    assert Sort<Dependency>([], ByPath) == [];
  }

  // A visit that finishes has read everything it lists, and keeps what was listed before.
  lemma {:induction false} VisitCovers(g: Graph, exploring: set<Node>, tsorted: seq<Node>, read: set<Node>, n: Node)
    requires forall m :: m in tsorted ==> m in read
    ensures var r := Visit(g, exploring, tsorted, read, n);
            read <= r.read && (r.Finished? ==> tsorted <= r.tsorted && forall m :: m in r.tsorted ==> m in r.read)
    decreases g.Keys - exploring, 0
  {
    if n !in exploring && n !in tsorted && n in g {
      VisitAllCovers(g, exploring + {n}, tsorted, read + {n}, Targets(g[n], Private));
    }
  }

  lemma {:induction false} VisitAllCovers(
      g: Graph, exploring: set<Node>, tsorted: seq<Node>, read: set<Node>, ns: seq<Node>)
    requires forall m :: m in tsorted ==> m in read
    ensures var r := VisitAll(g, exploring, tsorted, read, ns);
            read <= r.read && (r.Finished? ==> tsorted <= r.tsorted && forall m :: m in r.tsorted ==> m in r.read)
    decreases g.Keys - exploring, |ns|
  {
    if ns != [] {
      VisitCovers(g, exploring, tsorted, read, ns[0]);
      var first := Visit(g, exploring, tsorted, read, ns[0]);
      if first.Finished? {
        VisitAllCovers(g, exploring, first.tsorted, first.read, ns[1..]);
      }
    }
  }

  ghost predicate AgreeOn(g: Graph, h: Graph, s: seq<Node>) {
    forall m :: m in s ==> Direct(g, m) == Direct(h, m)
  }

  // A visit that finishes depends only on the dependencies of the nodes it lists.
  lemma {:induction false} VisitFrame(
      g: Graph, h: Graph, exploring: set<Node>, tsorted: seq<Node>, read: set<Node>, n: Node)
    requires forall m :: m in tsorted ==> m in read
    requires Visit(g, exploring, tsorted, read, n).Finished?
    requires AgreeOn(g, h, Visit(g, exploring, tsorted, read, n).tsorted)
    ensures Visit(h, exploring, tsorted, read, n) == Visit(g, exploring, tsorted, read, n)
    decreases g.Keys - exploring, 0
  {
    if n !in tsorted {
      var r := Visit(g, exploring, tsorted, read, n);
      assert n in r.tsorted;
      if n in g {
        var below := VisitAll(g, exploring + {n}, tsorted, read + {n}, Targets(g[n], Private));
        assert below.tsorted <= r.tsorted;
        VisitAllFrame(g, h, exploring + {n}, tsorted, read + {n}, Targets(g[n], Private));
      }
    }
  }

  lemma {:induction false} VisitAllFrame(
      g: Graph, h: Graph, exploring: set<Node>, tsorted: seq<Node>, read: set<Node>, ns: seq<Node>)
    requires forall m :: m in tsorted ==> m in read
    requires VisitAll(g, exploring, tsorted, read, ns).Finished?
    requires AgreeOn(g, h, VisitAll(g, exploring, tsorted, read, ns).tsorted)
    ensures VisitAll(h, exploring, tsorted, read, ns) == VisitAll(g, exploring, tsorted, read, ns)
    decreases g.Keys - exploring, |ns|
  {
    if ns != [] {
      var first := Visit(g, exploring, tsorted, read, ns[0]);
      VisitCovers(g, exploring, tsorted, read, ns[0]);
      VisitAllCovers(g, exploring, first.tsorted, first.read, ns[1..]);
      VisitFrame(g, h, exploring, tsorted, read, ns[0]);
      VisitAllFrame(g, h, exploring, first.tsorted, first.read, ns[1..]);
    }
  }

  lemma ReadingKeepsCoherence(st: State, read: set<Node>)
    requires Coherent(st)
    ensures Coherent(AfterReading(st, read))
  {
    var st' := AfterReading(st, read);
    forall n | Recorded(st', n) ensures st'.directSorted[n] == Sort(Direct(st.direct, n), ByPath) {}
  }

  lemma QueryKeepsCoherence(st: State, n: Node)
    requires Coherent(st)
    ensures QueryAnswer(st, n) == UncachedAnswer(st.direct, n)
    ensures Coherent(AfterQuery(st, n))
  {
    CoherentTraversesDeclarations(st);
    if n !in st.cached {
      ReadingKeepsCoherence(st, ResolveVisit(Effective(st), n).read);
    }
  }

  /** An answer depends only on the dependencies of the root and of the nodes it lists. */
  lemma ResolveFrame(g: Graph, h: Graph, root: Node)
    requires Resolve(g, root).Sorted?
    requires Direct(g, root) == Direct(h, root) && AgreeOn(g, h, Resolve(g, root).libs)
    ensures Resolve(h, root) == Resolve(g, root)
  {
    ReverseMembers(ResolveVisit(g, root).tsorted);
    VisitAllFrame(g, h, {}, [], {root}, Targets(Direct(g, root), Interface));
  }

  /** Appending where nothing rests on it leaves every kept answer current. */
  lemma AppendKeepsCoherence(st: State, n: Node, deps: seq<Dependency>)
    requires Coherent(st) && MayAppend(st, n)
    ensures Coherent(AfterAppend(st, n, deps))
  {
    var g, h := Ordered(st.direct), Ordered(AfterAppend(st, n, deps).direct);
    forall m | m != n ensures Direct(g, m) == Direct(h, m) {}
    forall c | c in st.cached ensures Resolve(h, c) == Sorted(st.cached[c]) {
      ResolveFrame(g, h, c);
    }
  }

  /** Every disciplined interleaving answers each query as a resolver without caches would. */
  lemma {:induction false} CachesAreTransparent(st: State, ops: seq<Op>)
    requires Coherent(st) && Disciplined(st, ops)
    ensures Answers(st, ops) == UncachedAnswers(st.direct, ops)
    decreases |ops|
  {
    if ops != [] {
      match ops[0]
      case Append(n, deps) =>
        AppendKeepsCoherence(st, n, deps);
        CachesAreTransparent(AfterAppend(st, n, deps), ops[1..]);
      case Query(n) =>
        QueryKeepsCoherence(st, n);
        CachesAreTransparent(AfterQuery(st, n), ops[1..]);
    }
  }

  // ---- Declaring before reading is disciplined ------------------------------------------------------

  /** No node gains a dependency after its dependencies were first read. */
  ghost predicate DeclaresFirst(st: State, ops: seq<Op>)
    decreases |ops|
  {
    ops == [] ||
    (&& (ops[0].Append? ==> ops[0].node !in st.directSorted)
     && DeclaresFirst(Step(st, ops[0]), ops[1..]))
  }

  /** Every cached answer rests on nodes that have been read. */
  ghost predicate Covered(st: State) {
    forall c, m :: c in st.cached && (m == c || m in st.cached[c]) ==> m in st.directSorted
  }

  lemma QueryKeepsCovered(st: State, n: Node)
    requires Covered(st)
    ensures Covered(AfterQuery(st, n))
  {
    if n !in st.cached {
      var g := Effective(st);
      VisitAllCovers(g, {}, [], {n}, Targets(Direct(g, n), Interface));
      var r := ResolveVisit(g, n);
      if r.Finished? {
        ReverseMembers(r.tsorted);
      }
    }
  }

  /** A session that declares the dependencies of a node before they are first read is disciplined. */
  lemma {:induction false} DeclaringFirstIsDisciplined(st: State, ops: seq<Op>)
    requires Covered(st) && DeclaresFirst(st, ops)
    ensures Disciplined(st, ops)
    decreases |ops|
  {
    if ops != [] {
      match ops[0]
      case Append(n, deps) =>
        DeclaringFirstIsDisciplined(AfterAppend(st, n, deps), ops[1..]);
      case Query(n) =>
        QueryKeepsCovered(st, n);
        DeclaringFirstIsDisciplined(AfterQuery(st, n), ops[1..]);
    }
  }

  // ---- The discipline is needed ----------------------------------------------------------------------

  lemma MembersInclude(g: Graph, h: Graph)
    requires forall u, a :: a in Direct(g, u) ==> a in Direct(h, u)
    ensures Includes(g, h)
  {}

  lemma AppendIncludes(d: Graph, n: Node, x: Node)
    ensures var h := Ordered(d[n := Direct(d, n) + [Dependency(x, Public)]]);
            Includes(Ordered(d), h) && Edge(h, n, x) && RootEdge(h, n, x)
  {
    var dep := Dependency(x, Public);
    var deps := Direct(d, n) + [dep];
    var g, h := Ordered(d), Ordered(d[n := deps]);
    SortMembers(Direct(d, n), ByPath);
    SortMembers(deps, ByPath);
    assert dep in Direct(h, n);
    forall u, a | a in Direct(g, u) ensures a in Direct(h, u) {
      if u == n {
        assert a in Direct(d, n);
      }
    }
    MembersInclude(g, h);
  }

  lemma ReachesOnwards(g: Graph, u: Node, v: Node, w: Node)
    requires Reaches(g, u, v) && Edge(g, v, w)
    ensures Reaches(g, u, w)
  {
    var p :| WalkBetween(g, p, u, v);
    var q := p + [w];
    forall i | 0 <= i < |q| - 1 ensures Edge(g, q[i], q[i + 1]) {
      assert q[i] == p[i] && (i + 1 < |p| ==> q[i + 1] == p[i + 1]);
    }
    assert WalkBetween(g, q, u, w);
  }

  lemma NewDependency(d: Graph, n: Node, c: Node, x: Node)
    requires c == n || DependsOn(Ordered(d), c, n)
    ensures DependsOn(Ordered(d[n := Direct(d, n) + [Dependency(x, Public)]]), c, x)
  {
    var h := Ordered(d[n := Direct(d, n) + [Dependency(x, Public)]]);
    AppendIncludes(d, n, x);
    ReachesItself(h, x);
    if c != n {
      IncludedDependencies(Ordered(d), h, c, n);
      var u :| RootEdge(h, c, u) && Reaches(h, u, n);
      ReachesOnwards(h, u, n, x);
    }
  }

  /** The query of `c` returns, and its answer depends on what `n` declares. */
  ghost predicate RestsOn(direct: Graph, c: Node, n: Node) {
    var answer := UncachedAnswer(direct, c);
    answer.Sorted? && (c == n || n in answer.libs)
  }

  lemma AnswerChanges(d: Graph, n: Node, c: Node, x: Node)
    requires RestsOn(d, c, n) && x !in UncachedAnswer(d, c).libs
    ensures UncachedAnswer(d[n := Direct(d, n) + [Dependency(x, Public)]], c) != UncachedAnswer(d, c)
  {
    var h := Ordered(d[n := Direct(d, n) + [Dependency(x, Public)]]);
    ResolveSorts(Ordered(d), c);
    NewDependency(d, n, c, x);
    if Resolve(h, c).Sorted? {
      ResolveSorts(h, c);
    }
  }

  lemma QueryIsStale(st: State, n: Node, deps: seq<Dependency>, c: Node)
    requires Coherent(st) && (c in st.cached || Recorded(st, n))
    ensures QueryAnswer(AfterAppend(st, n, deps), c) == UncachedAnswer(st.direct, c)
  {
    CoherentTraversesDeclarations(st);
    if Recorded(st, n) {
      assert n in st.direct;
      assert Effective(AfterAppend(st, n, deps)) == Effective(st);
    }
  }

  /** An append is missed by every query that rests on the node, once that query is cached or the dependencies of
      the node are recorded. */
  lemma LateAppendIsMissed(st: State, n: Node, c: Node, x: Node)
    requires Coherent(st) && RestsOn(st.direct, c, n) && x !in UncachedAnswer(st.direct, c).libs
    requires c in st.cached || Recorded(st, n)
    ensures var st' := AfterAppend(st, n, [Dependency(x, Public)]);
            && QueryAnswer(st', c) == UncachedAnswer(st.direct, c)
            && UncachedAnswer(st'.direct, c) != QueryAnswer(st', c)
  {
    AnswerChanges(st.direct, n, c, x);
    QueryIsStale(st, n, [Dependency(x, Public)], c);
  }

  /** Whatever is appended to `n` now, every query answers from the declarations. */
  ghost predicate AppendIsSeen(st: State, n: Node) {
    forall deps, c :: QueryAnswer(AfterAppend(st, n, deps), c) == UncachedAnswer(AfterAppend(st, n, deps).direct, c)
  }

  lemma UnlistedNode(libs: seq<Node>) returns (x: Node)
    ensures x !in libs
  {
    var i := 0;
    x := Node(0, "");
    while i < |libs|
      invariant 0 <= i <= |libs| && forall j :: 0 <= j < i ==> libs[j].id < x.id
    {
      x := Node(if libs[i].id >= x.id then libs[i].id + 1 else x.id, "");
      i := i + 1;
    }
  }

  lemma StaleAnswer(st: State, n: Node, c: Node)
    requires Coherent(st) && RestsOn(st.direct, c, n)
    requires c in st.cached || Recorded(st, n)
    ensures !AppendIsSeen(st, n)
  {
    var x := UnlistedNode(UncachedAnswer(st.direct, c).libs);
    LateAppendIsMissed(st, n, c, x);
  }

  /** Appending to `n` is always seen exactly when nothing kept on nodes rests on it; where dependencies of `n` are
      recorded, provided that some query resting on it returns at all. */
  lemma AppendIsSeenExactly(st: State, n: Node)
    requires Coherent(st)
    requires Recorded(st, n) ==> exists c :: RestsOn(st.direct, c, n)
    ensures AppendIsSeen(st, n) <==> MayAppend(st, n)
  {
    if MayAppend(st, n) {
      forall deps, c
        ensures QueryAnswer(AfterAppend(st, n, deps), c) == UncachedAnswer(AfterAppend(st, n, deps).direct, c)
      {
        AppendKeepsCoherence(st, n, deps);
        QueryKeepsCoherence(AfterAppend(st, n, deps), c);
      }
    } else if Recorded(st, n) {
      var c :| RestsOn(st.direct, c, n);
      StaleAnswer(st, n, c);
    } else if n in st.cached {
      StaleAnswer(st, n, n);
    } else {
      var c :| c in st.cached && n in st.cached[c];
      StaleAnswer(st, n, c);
    }
  }

  // ---- Declaration order ------------------------------------------------------------------------

  ghost predicate Mentions(direct: Graph, t: Node) {
    exists n, d :: n in direct && d in direct[n] && d.target == t
  }

  /** Distinct nodes have distinct names. */
  ghost predicate PathsIdentify(direct: Graph) {
    forall s, t :: Mentions(direct, s) && Mentions(direct, t) && s.path == t.path ==> s == t
  }

  ghost predicate SameDeclarations(d: Graph, e: Graph) {
    && d.Keys == e.Keys
    && forall n :: n in d ==> multiset(d[n]) == multiset(e[n])
  }

  predicate NodeByPath(a: Node, b: Node) {
    StringLe(a.path, b.path)
  }

  lemma {:induction false} TargetsSorted(deps: seq<Dependency>, skip: Visibility)
    requires SortedBy(deps, ByPath)
    ensures SortedBy(Targets(deps, skip), NodeByPath)
  {
    if deps != [] {
      TargetsSorted(deps[1..], skip);
      forall t | t in Targets(deps[1..], skip) ensures NodeByPath(deps[0].target, t) {
        TargetsMembers(deps[1..], skip, t);
        var d :| d in deps[1..] && d.target == t;
        var i :| 0 <= i < |deps[1..]| && deps[1..][i] == d;
        assert deps[i + 1] == d;
        assert ByPath(deps[0], deps[i + 1]);
      }
    }
  }

  /** How often `t` is followed, counted from the declared dependencies alone. */
  ghost function Followed(deps: multiset<Dependency>, skip: Visibility, t: Node): nat {
    (if skip == Public then 0 else deps[Dependency(t, Public)])
    + (if skip == Private then 0 else deps[Dependency(t, Private)])
    + (if skip == Interface then 0 else deps[Dependency(t, Interface)])
  }

  lemma FollowedOneMore(d: Dependency, rest: multiset<Dependency>, skip: Visibility, t: Node)
    ensures Followed(multiset{d} + rest, skip, t) ==
            Followed(rest, skip, t) + if d.kind != skip && d.target == t then 1 else 0
  {}

  lemma TargetsOneMore(deps: seq<Dependency>, skip: Visibility, t: Node)
    requires deps != []
    ensures multiset(Targets(deps, skip))[t] ==
            multiset(Targets(deps[1..], skip))[t] + if deps[0].kind != skip && deps[0].target == t then 1 else 0
  {
    var head := if deps[0].kind != skip then [deps[0].target] else [];
    assert Targets(deps, skip) == head + Targets(deps[1..], skip);
  }

  lemma {:induction false} TargetsCount(deps: seq<Dependency>, skip: Visibility, t: Node)
    ensures multiset(Targets(deps, skip))[t] == Followed(multiset(deps), skip, t)
  {
    if deps != [] {
      TargetsOneMore(deps, skip, t);
      assert multiset(deps) == multiset{deps[0]} + multiset(deps[1..]) by {
        assert deps == [deps[0]] + deps[1..];
      }
      FollowedOneMore(deps[0], multiset(deps[1..]), skip, t);
      TargetsCount(deps[1..], skip, t);
    }
  }

  lemma TargetsOfPermutation(a: seq<Dependency>, b: seq<Dependency>, skip: Visibility)
    requires multiset(a) == multiset(b)
    ensures multiset(Targets(a, skip)) == multiset(Targets(b, skip))
  {
    forall t ensures multiset(Targets(a, skip))[t] == multiset(Targets(b, skip))[t] {
      TargetsCount(a, skip, t);
      TargetsCount(b, skip, t);
    }
  }

  lemma PermutationTail<T>(a: seq<T>, b: seq<T>, i: nat)
    requires multiset(a) == multiset(b) && a != [] && i < |b| && b[i] == a[0]
    ensures multiset(a[1..]) == multiset(b[..i] + b[i + 1..])
  {
    assert a == [a[0]] + a[1..];
    assert b == b[..i] + [b[i]] + b[i + 1..];
    assert multiset(a[1..]) == multiset(a) - multiset{a[0]};
    assert multiset(b[..i] + b[i + 1..]) == multiset(b) - multiset{b[i]};
  }

  ghost predicate ToldApart(s: seq<Node>) {
    forall x, y :: x in s && y in s && x.path == y.path ==> x == y
  }

  lemma SortedHeadsAgree(a: seq<Node>, b: seq<Node>)
    requires SortedBy(a, NodeByPath) && SortedBy(b, NodeByPath) && ToldApart(a)
    requires multiset(a) == multiset(b) && a != []
    ensures b != [] && a[0] == b[0]
  {
    assert a[0] in multiset(b);
    assert b[0] in multiset(a);
    StringLeTotal(a[0].path, a[0].path);
    assert NodeByPath(b[0], a[0]);
    assert NodeByPath(a[0], b[0]);
    StringLeAntisymmetric(a[0].path, b[0].path);
  }

  lemma SortedTail(s: seq<Node>)
    requires s != [] && SortedBy(s, NodeByPath)
    ensures SortedBy(s[1..], NodeByPath)
  {}

  lemma ToldApartTail(s: seq<Node>)
    requires s != [] && ToldApart(s)
    ensures ToldApart(s[1..])
  {
    assert forall x :: x in s[1..] ==> x in s;
  }

  lemma PermutationTails<T>(a: seq<T>, b: seq<T>)
    requires multiset(a) == multiset(b) && a != [] && b != [] && a[0] == b[0]
    ensures multiset(a[1..]) == multiset(b[1..])
  {
    PermutationTail(a, b, 0);
    assert b[..0] + b[1..] == b[1..];
  }

  lemma SameParts<T>(a: seq<T>, b: seq<T>)
    requires a != [] && b != [] && a[0] == b[0] && a[1..] == b[1..]
    ensures a == b
  {
    assert a == [a[0]] + a[1..] && b == [b[0]] + b[1..];
  }

  lemma EmptyPermutation<T>(b: seq<T>)
    requires multiset(b) == multiset{}
    ensures b == []
  {
    assert |multiset(b)| == 0;
  }

  /** Sorted lists of nodes that are told apart by their paths are equal once their contents are. */
  lemma {:induction false} SortedNodesUnique(a: seq<Node>, b: seq<Node>)
    requires SortedBy(a, NodeByPath) && SortedBy(b, NodeByPath) && ToldApart(a)
    requires multiset(a) == multiset(b)
    ensures a == b
  {
    if a == [] {
      EmptyPermutation(b);
    } else {
      SortedHeadsAgree(a, b);
      PermutationTails(a, b);
      SortedTail(a);
      SortedTail(b);
      ToldApartTail(a);
      SortedNodesUnique(a[1..], b[1..]);
      SameParts(a, b);
    }
  }

  lemma TraversalIgnoresOrder(d: Graph, e: Graph, n: Node, skip: Visibility)
    requires SameDeclarations(d, e) && PathsIdentify(d)
    ensures Targets(Direct(Ordered(d), n), skip) == Targets(Direct(Ordered(e), n), skip)
  {
    if n in d {
      var a, b := Sort(d[n], ByPath), Sort(e[n], ByPath);
      ByPathIsPreorder();
      SortSorts(d[n], ByPath);
      SortSorts(e[n], ByPath);
      SortPermutes(d[n], ByPath);
      SortPermutes(e[n], ByPath);
      TargetsSorted(a, skip);
      TargetsSorted(b, skip);
      TargetsOfPermutation(a, b, skip);
      SortMembers(d[n], ByPath);
      forall x | x in Targets(a, skip) ensures Mentions(d, x) {
        TargetsMembers(a, skip, x);
      }
      SortedNodesUnique(Targets(a, skip), Targets(b, skip));
    }
  }

  lemma {:induction false} VisitSameTargets(
      g: Graph, h: Graph, exploring: set<Node>, tsorted: seq<Node>, read: set<Node>, n: Node)
    requires g.Keys == h.Keys
    requires forall m :: m in g ==> Targets(g[m], Private) == Targets(h[m], Private)
    ensures Visit(g, exploring, tsorted, read, n) == Visit(h, exploring, tsorted, read, n)
    decreases g.Keys - exploring, 0
  {
    if n !in exploring && n !in tsorted && n in g {
      VisitAllSameTargets(g, h, exploring + {n}, tsorted, read + {n}, Targets(g[n], Private));
    }
  }

  lemma {:induction false} VisitAllSameTargets(
      g: Graph, h: Graph, exploring: set<Node>, tsorted: seq<Node>, read: set<Node>, ns: seq<Node>)
    requires g.Keys == h.Keys
    requires forall m :: m in g ==> Targets(g[m], Private) == Targets(h[m], Private)
    ensures VisitAll(g, exploring, tsorted, read, ns) == VisitAll(h, exploring, tsorted, read, ns)
    decreases g.Keys - exploring, |ns|
  {
    if ns != [] {
      VisitSameTargets(g, h, exploring, tsorted, read, ns[0]);
      var first := Visit(g, exploring, tsorted, read, ns[0]);
      if first.Finished? {
        VisitAllSameTargets(g, h, exploring, first.tsorted, first.read, ns[1..]);
      }
    }
  }

  /** With paths that identify nodes, the order of declarations does not matter, errors included. */
  lemma AnswerIgnoresDeclarationOrder(d: Graph, e: Graph, root: Node)
    requires SameDeclarations(d, e) && PathsIdentify(d)
    ensures UncachedAnswer(d, root) == UncachedAnswer(e, root)
  {
    var g, h := Ordered(d), Ordered(e);
    forall m | m in g ensures Targets(g[m], Private) == Targets(h[m], Private) {
      TraversalIgnoresOrder(d, e, m, Private);
    }
    TraversalIgnoresOrder(d, e, root, Interface);
    VisitAllSameTargets(g, h, {}, [], {root}, Targets(Direct(g, root), Interface));
  }
}
