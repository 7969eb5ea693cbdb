/** `site_scons/libdeps.py`: node attributes, the emitter that fills them and the query that reads them. */
module Libdeps {
  import opened Basics
  import opened Ordering
  import DG = DependencyGraph
  import opened DependencyGraph
  import opened DependencyCaches

  ghost function Elements<T>(s: seq<T>): set<T> {
    set x | x in s
  }

  lemma ElementsAppend<T>(s: seq<T>, x: T)
    ensures Elements(s + [x]) == Elements(s) + {x}
  {}

  // ---- Visibility maps and declarations ------------------------------------------------------

  function IgnoreVisibility(v: Visibility): Visibility {
    Public
  }

  function HonorVisibility(v: Visibility): Visibility {
    v
  }

  /** A LIBDEPS_DEPENDENTS or PROGDEPS_DEPENDENTS entry, with its visibility when one is given. */
  datatype Dependent = Dependent(node: Node, visibility: Option<Visibility>)

  /** What one builder call declares; missing and empty entries have been dropped. */
  datatype Emission = Emission(
    targets: seq<Node>,
    public: seq<Node>, interface: seq<Node>, private: seq<Node>,
    libDependents: seq<Dependent>, progDependents: seq<Dependent>)

  ghost predicate HasTarget(e: Emission) {
    e.targets == [] ==> e.libDependents == [] && e.progDependents == []
  }

  function Declared(ns: seq<Node>, kind: Visibility): seq<Dependency> {
    seq(|ns|, i requires 0 <= i < |ns| => Dependency(ns[i], kind))
  }

  function Prerequisites(e: Emission, m: Visibility -> Visibility): seq<Dependency> {
    Declared(e.public, m(Public)) + Declared(e.interface, m(Interface)) + Declared(e.private, m(Private))
  }

  function AppendTo(g: Graph, n: Node, deps: seq<Dependency>): Graph {
    g[n := Direct(g, n) + deps]
  }

  function AppendToEach(g: Graph, ns: seq<Node>, deps: seq<Dependency>): Graph
    decreases |ns|
  {
    if ns == [] then g else AppendToEach(AppendTo(g, ns[0], deps), ns[1..], deps)
  }

  function VisibilityOf(d: Dependent, default: Visibility): Visibility {
    if d.visibility.Some? then d.visibility.value else default
  }

  function AppendDependents(
      g: Graph, ds: seq<Dependent>, target: Node, default: Visibility, m: Visibility -> Visibility): Graph
    decreases |ds|
  {
    if ds == [] then g
    else AppendDependents(AppendTo(g, ds[0].node, [Dependency(target, m(VisibilityOf(ds[0], default)))]),
                          ds[1..], target, default, m)
  }

  function Emitted(g: Graph, e: Emission, m: Visibility -> Visibility, ignoreProgdeps: bool): Graph
    requires HasTarget(e)
  {
    var g1 := AppendToEach(g, e.targets, Prerequisites(e, m));
    if e.targets == [] then g1
    else
      var g2 := AppendDependents(g1, e.libDependents, e.targets[0], Private, m);
      if ignoreProgdeps then g2 else AppendDependents(g2, e.progDependents, e.targets[0], Public, m)
  }

  /** The declarations of one builder call, independent of the order in which they are appended. */
  ghost predicate Declares(e: Emission, m: Visibility -> Visibility, ignoreProgdeps: bool, n: Node, d: Dependency) {
    || (n in e.targets &&
        (|| (d.target in e.public && d.kind == m(Public))
         || (d.target in e.interface && d.kind == m(Interface))
         || (d.target in e.private && d.kind == m(Private))))
    || (e.targets != [] && d.target == e.targets[0] &&
        (|| HasDependent(e.libDependents, n, d.kind, Private, m)
         || (!ignoreProgdeps && HasDependent(e.progDependents, n, d.kind, Public, m))))
  }

  ghost predicate HasDependent(
      ds: seq<Dependent>, n: Node, kind: Visibility, default: Visibility, m: Visibility -> Visibility) {
    exists x :: x in ds && x.node == n && kind == m(VisibilityOf(x, default))
  }

  lemma PrerequisiteMembers(e: Emission, m: Visibility -> Visibility, d: Dependency)
    ensures d in Prerequisites(e, m) <==>
            || (d.target in e.public && d.kind == m(Public))
            || (d.target in e.interface && d.kind == m(Interface))
            || (d.target in e.private && d.kind == m(Private))
  {
    DeclaredMembers(e.public, m(Public), d);
    DeclaredMembers(e.interface, m(Interface), d);
    DeclaredMembers(e.private, m(Private), d);
  }

  lemma DeclaredMembers(ns: seq<Node>, kind: Visibility, d: Dependency)
    ensures d in Declared(ns, kind) <==> d.target in ns && d.kind == kind
  {
    if d.target in ns && d.kind == kind {
      var i :| 0 <= i < |ns| && ns[i] == d.target;
      assert Declared(ns, kind)[i] == d;
    }
  }

  lemma {:induction false} AppendedToEach(g: Graph, ns: seq<Node>, deps: seq<Dependency>, n: Node, d: Dependency)
    ensures d in Direct(AppendToEach(g, ns, deps), n) <==> d in Direct(g, n) || (n in ns && d in deps)
    decreases |ns|
  {
    if ns != [] {
      AppendedToEach(AppendTo(g, ns[0], deps), ns[1..], deps, n, d);
      assert ns == [ns[0]] + ns[1..];
    }
  }

  lemma {:induction false} AppendedDependents(
      g: Graph, ds: seq<Dependent>, target: Node, default: Visibility, m: Visibility -> Visibility,
      n: Node, d: Dependency)
    ensures d in Direct(AppendDependents(g, ds, target, default, m), n) <==>
            d in Direct(g, n) || (d.target == target && HasDependent(ds, n, d.kind, default, m))
    decreases |ds|
  {
    if ds != [] {
      var first := Dependency(target, m(VisibilityOf(ds[0], default)));
      AppendedDependents(AppendTo(g, ds[0].node, [first]), ds[1..], target, default, m, n, d);
      HasDependentSplits(ds, n, d.kind, default, m);
    }
  }

  lemma HasDependentSplits(
      ds: seq<Dependent>, n: Node, kind: Visibility, default: Visibility, m: Visibility -> Visibility)
    requires ds != []
    ensures HasDependent(ds, n, kind, default, m) <==>
            (ds[0].node == n && kind == m(VisibilityOf(ds[0], default))) || HasDependent(ds[1..], n, kind, default, m)
  {
    assert ds == [ds[0]] + ds[1..];
    assert ds[0] in ds;
  }

  /** A builder call adds exactly the dependencies it declares, to exactly the nodes it declares them for. */
  lemma EmittedDependencies(
      g: Graph, e: Emission, m: Visibility -> Visibility, ignoreProgdeps: bool, n: Node, d: Dependency)
    requires HasTarget(e)
    ensures d in Direct(Emitted(g, e, m, ignoreProgdeps), n) <==>
            d in Direct(g, n) || Declares(e, m, ignoreProgdeps, n, d)
  {
    var g1 := AppendToEach(g, e.targets, Prerequisites(e, m));
    AppendedToEach(g, e.targets, Prerequisites(e, m), n, d);
    PrerequisiteMembers(e, m, d);
    if e.targets != [] {
      var g2 := AppendDependents(g1, e.libDependents, e.targets[0], Private, m);
      AppendedDependents(g1, e.libDependents, e.targets[0], Private, m, n, d);
      AppendedDependents(g2, e.progDependents, e.targets[0], Public, m, n, d);
    }
  }

  // ---- Attributes of nodes -------------------------------------------------------------------

  /** The attribute dictionaries of all nodes, one map per attribute name. */
  class Attributes {
    var direct: Graph                  // libdeps_direct
    var directSorted: Graph            // libdeps_direct_sorted
    var cached: map<Node, seq<Node>>   // LIBDEPS_cached
    var exploring: set<Node>           // nodes whose libdeps_exploring is True

    function Abs(): State
      reads this
    {
      State(direct, directSorted, cached)
    }

    constructor ()
      ensures Abs() == State(map[], map[], map[]) && exploring == {}
      ensures Coherent(Abs())
    {
      direct, directSorted, cached, exploring := map[], map[], map[], {};
    }

    method GetSortedDirectLibdeps(n: Node) returns (deps: seq<Dependency>)
      modifies this`directSorted
      ensures deps == SortedDirect(old(Abs()), n)
      ensures directSorted == old(directSorted)[n := deps]
    {
      deps := if n in directSorted then directSorted[n] else [];
      if deps == [] {
        deps := Sort(Direct(direct, n), ByPath);
        directSorted := directSorted[n := deps];
      }
    }

    method AppendDirectLibdeps(n: Node, prereqs: seq<Dependency>)
      modifies this`direct
      ensures Abs() == AfterAppend(old(Abs()), n, prereqs)
      ensures old(WellFormed(Abs())) ==> WellFormed(Abs())
    {
      if n !in direct {
        direct := direct[n := []];
      }
      direct := direct[n := direct[n] + prereqs];
    }

    method Emit(e: Emission, m: Visibility -> Visibility, ignoreProgdeps: bool)
      requires HasTarget(e)
      modifies this`direct
      ensures direct == Emitted(old(direct), e, m, ignoreProgdeps)
      ensures old(WellFormed(Abs())) ==> WellFormed(Abs())
    {
      var prereqs := Prerequisites(e, m);
      ghost var want := AppendToEach(direct, e.targets, prereqs);
      for i := 0 to |e.targets|
        invariant want == AppendToEach(direct, e.targets[i..], prereqs)
        invariant old(WellFormed(Abs())) ==> WellFormed(Abs())
      {
        AppendDirectLibdeps(e.targets[i], prereqs);
        assert e.targets[i..][1..] == e.targets[i + 1..];
      }
      assert direct == want;
      if e.targets != [] {
        AddDependents(e.libDependents, e.targets[0], Private, m);
        if !ignoreProgdeps {
          AddDependents(e.progDependents, e.targets[0], Public, m);
        }
      }
    }

    method AddDependents(ds: seq<Dependent>, target: Node, default: Visibility, m: Visibility -> Visibility)
      modifies this`direct
      ensures direct == AppendDependents(old(direct), ds, target, default, m)
      ensures old(WellFormed(Abs())) ==> WellFormed(Abs())
    {
      ghost var want := AppendDependents(direct, ds, target, default, m);
      for i := 0 to |ds|
        invariant want == AppendDependents(direct, ds[i..], target, default, m)
        invariant old(WellFormed(Abs())) ==> WellFormed(Abs())
      {
        var visibility := default;
        if ds[i].visibility.Some? {
          visibility := ds[i].visibility.value;
        }
        AppendDirectLibdeps(ds[i].node, [Dependency(target, m(visibility))]);
        assert ds[i..][1..] == ds[i + 1..];
      }
    }

    /** The answer to a query, from the cache when there is one; every exploring flag ends clear. */
    method GetLibdeps(node: Node) returns (answer: Answer)
      requires WellFormed(Abs()) && exploring == {}
      modifies this
      ensures answer == QueryAnswer(old(Abs()), node)
      ensures Abs() == AfterQuery(old(Abs()), node)
      ensures WellFormed(Abs()) && exploring == {}
    {
      if node in cached {
        return Sorted(cached[node]);
      }
      ghost var st := Abs();
      assert AfterReading(st, {}) == st;
      var t := new Traversal(this);
      var children := t.ReadSorted(node, st);
      assert t.read == {node};
      var raised := t.VisitEach(children, Interface, st);
      ReadingIsTransparent(st, t.read);
      if raised.Some? {
        return CycleError(raised.value);
      }
      var tsorted := Reverse(t.tsorted);
      cached := cached[node := tsorted];
      answer := Sorted(tsorted);
    }
  }

  ghost function Outcome(raised: Option<seq<Node>>, tsorted: seq<Node>, read: set<Node>): Visited {
    if raised.None? then Finished(tsorted, read) else Raised(raised.value, read)
  }

  /** The variables captured by `visit` during one query. */
  class Traversal {
    const attributes: Attributes
    var tsorted: seq<Node>
    var marked: set<Node>
    ghost var read: set<Node>

    constructor (a: Attributes)
      ensures attributes == a && tsorted == [] && marked == {} && read == {}
    {
      attributes, tsorted, marked, read := a, [], {}, {};
    }

    /** The query started in `st` and has so far only recorded the sorted lists it has read. */
    ghost predicate Consistent(st: State)
      reads this, attributes
    {
      && WellFormed(st)
      && attributes.Abs() == AfterReading(st, read)
      && marked == Elements(tsorted)
    }

    method ReadSorted(node: Node, ghost st: State) returns (children: seq<Dependency>)
      requires Consistent(st)
      modifies this`read, attributes`directSorted
      ensures Consistent(st) && read == old(read) + {node}
      ensures children == Direct(Effective(st), node)
      ensures children != [] ==> node in st.direct
    {
      EffectiveReads(st, node);
      ReadingIsTransparent(st, read);
      ReadingOneMore(st, read, node);
      children := attributes.GetSortedDirectLibdeps(node);
      read := read + {node};
    }

    /** Visit the first child, unless its visibility is skipped; the others remain to be visited. */
    method VisitFirst(children: seq<Dependency>, skip: Visibility, ghost st: State) returns (raised: Option<seq<Node>>)
      requires Consistent(st) && children != []
      modifies this, attributes
      ensures Consistent(st) && attributes.exploring == old(attributes.exploring)
      ensures VisitAll(Effective(st), old(attributes.exploring), old(tsorted), old(read), Targets(children, skip))
           == if raised.Some? then Outcome(raised, tsorted, read)
              else VisitAll(Effective(st), attributes.exploring, tsorted, read, Targets(children[1..], skip))
      decreases st.direct.Keys - attributes.exploring, 3
    {
      VisitAllUnfolds(Effective(st), attributes.exploring, tsorted, read, children, skip);
      raised := None;
      if children[0].kind != skip {
        raised := Visit(children[0], st);
      }
    }

    /** Visit the children of one node in order, up to the first exception. */
    method VisitEach(children: seq<Dependency>, skip: Visibility, ghost st: State) returns (raised: Option<seq<Node>>)
      requires Consistent(st)
      modifies this, attributes
      ensures Consistent(st) && attributes.exploring == old(attributes.exploring)
      ensures VisitAll(Effective(st), old(attributes.exploring), old(tsorted), old(read), Targets(children, skip))
           == Outcome(raised, tsorted, read)
      decreases st.direct.Keys - attributes.exploring, if children == [] then 0 else 4
    {
      ghost var g, exploring := Effective(st), attributes.exploring;
      ghost var want := VisitAll(g, exploring, tsorted, read, Targets(children, skip));
      raised := None;
      var i := 0;
      while i < |children| && raised.None?
        invariant 0 <= i <= |children|
        invariant attributes.exploring == exploring && Consistent(st)
        invariant if raised.None?
                  then want == VisitAll(g, exploring, tsorted, read, Targets(children[i..], skip))
                  else want == Outcome(raised, tsorted, read)
      {
        assert children[i..][1..] == children[i + 1..];
        raised := VisitFirst(children[i..], skip, st);
        i := i + 1;
      }
    }

    /** The inner `try` of a visit: list the node after its children, or grow the cycle on its way up. */
    method Explore(node: Node, ghost st: State) returns (raised: Option<seq<Node>>)
      requires Consistent(st) && node in attributes.exploring
      modifies this, attributes
      ensures Consistent(st) && attributes.exploring == old(attributes.exploring)
      ensures Leave(VisitAll(Effective(st), old(attributes.exploring), old(tsorted), old(read) + {node},
                             Targets(Direct(Effective(st), node), Private)), node)
           == Outcome(raised, tsorted, read)
      decreases st.direct.Keys - (attributes.exploring - {node}), 1
    {
      var children := ReadSorted(node, st);
      ghost var unexplored := st.direct.Keys - (attributes.exploring - {node});
      assert children != [] ==> node in unexplored && node !in st.direct.Keys - attributes.exploring;
      raised := VisitEach(children, Private, st);
      if raised.None? {
        ElementsAppend(tsorted, node);
        marked := marked + {node};
        tsorted := tsorted + [node];
      } else {
        raised := Some(Unwind(raised.value, node));
      }
    }

    /** Raising is returning the cycle collected so far; flags are restored on both exits. */
    method Visit(n: Dependency, ghost st: State) returns (raised: Option<seq<Node>>)
      requires Consistent(st)
      modifies this, attributes
      ensures Consistent(st) && attributes.exploring == old(attributes.exploring)
      ensures DG.Visit(Effective(st), old(attributes.exploring), old(tsorted), old(read), n.target)
           == Outcome(raised, tsorted, read)
      decreases st.direct.Keys - attributes.exploring, 2
    {
      var node := n.target;
      if node in attributes.exploring {
        return Some([node]);
      }
      attributes.exploring := attributes.exploring + {node};
      if node in marked {
        raised := None;
      } else {
        VisitUnfolds(Effective(st), old(attributes.exploring), tsorted, read, node);
        assert attributes.exploring - {node} == old(attributes.exploring);
        raised := Explore(node, st);
      }
      attributes.exploring := attributes.exploring - {node};
    }
  }
}
