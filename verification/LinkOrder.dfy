/** The order of libraries that nothing but their names decides. */
module LinkOrder {
  import opened Basics
  import opened Ordering
  import opened DependencyGraph
  import opened DependencyCaches

  /** `u` is listed before `v`, or `v` is not listed. */
  ghost predicate Leads(s: seq<Node>, u: Node, v: Node) {
    forall j :: 0 <= j < |s| && s[j] == v ==> u in s[..j]
  }

  lemma LeadsStays(s: seq<Node>, t: seq<Node>, u: Node, v: Node)
    requires Leads(s, u, v) && s <= t && (u in s || v !in t[|s|..])
    ensures Leads(t, u, v)
  {
    forall j | 0 <= j < |t| && t[j] == v ensures u in t[..j] {
      if j < |s| {
        assert t[..j] == s[..j];
      } else {
        assert t[j] == t[|s|..][j - |s|];
        assert t[..j][..|s|] == s;
      }
    }
  }

  lemma LeadsWithOther(s: seq<Node>, u: Node, v: Node, m: Node)
    requires Leads(s, u, v) && m != v
    ensures Leads(s + [m], u, v)
  {
    assert (s + [m])[|s|..] == [m];
    LeadsStays(s, s + [m], u, v);
  }

  // ---- What a visit adds --------------------------------------------------------------------------

  lemma {:induction false} VisitAllSplits(
      g: Graph, exploring: set<Node>, tsorted: seq<Node>, read: set<Node>, a: seq<Node>, b: seq<Node>)
    ensures VisitAll(g, exploring, tsorted, read, a + b) ==
            var r := VisitAll(g, exploring, tsorted, read, a);
            if r.Raised? then r else VisitAll(g, exploring, r.tsorted, r.read, b)
    decreases |a|
  {
    if a == [] {
      assert a + b == b;
    } else {
      assert (a + b)[0] == a[0] && (a + b)[1..] == a[1..] + b;
      var first := Visit(g, exploring, tsorted, read, a[0]);
      if first.Finished? {
        VisitAllSplits(g, exploring, first.tsorted, first.read, a[1..], b);
      }
    }
  }

  lemma {:induction false} VisitExtends(g: Graph, exploring: set<Node>, tsorted: seq<Node>, read: set<Node>, n: Node)
    ensures var r := Visit(g, exploring, tsorted, read, n);
            r.Finished? ==> tsorted <= r.tsorted && n in r.tsorted
    decreases g.Keys - exploring, 0
  {
    if n !in exploring && n !in tsorted && n in g {
      VisitAllExtends(g, exploring + {n}, tsorted, read + {n}, Targets(g[n], Private));
    }
  }

  lemma {:induction false} VisitAllExtends(
      g: Graph, exploring: set<Node>, tsorted: seq<Node>, read: set<Node>, ns: seq<Node>)
    ensures var r := VisitAll(g, exploring, tsorted, read, ns);
            r.Finished? ==> tsorted <= r.tsorted && forall n :: n in ns ==> n in r.tsorted
    decreases g.Keys - exploring, |ns|
  {
    if ns != [] {
      VisitExtends(g, exploring, tsorted, read, ns[0]);
      var first := Visit(g, exploring, tsorted, read, ns[0]);
      if first.Finished? {
        VisitAllExtends(g, exploring, first.tsorted, first.read, ns[1..]);
        assert ns == [ns[0]] + ns[1..];
      }
    }
  }

  // ---- Two children of one node ------------------------------------------------------------------------

  /** Of the listed nodes only `n`, if any, leads to `v`, and then past `u`. */
  ghost predicate OnlyPast(g: Graph, listed: set<Node>, n: Option<Node>, u: Node, v: Node) {
    && (forall w :: w in listed && Edge(g, w, v) ==> n == Some(w))
    && (n.Some? ==> Sooner(Targets(Direct(g, n.value), Private), u, v))
  }

  /** `u` occurs, and in front of every `v`. */
  ghost predicate Sooner(ns: seq<Node>, u: Node, v: Node) {
    u in ns && Leads(ns, u, v)
  }

  ghost predicate Within(s: seq<Node>, listed: set<Node>) {
    forall m :: m in s ==> m in listed
  }

  lemma {:induction false} VisitKeepsLead(
      g: Graph, exploring: set<Node>, tsorted: seq<Node>, read: set<Node>, m: Node,
      listed: set<Node>, n: Option<Node>, u: Node, v: Node)
    requires OnlyPast(g, listed, n, u, v) && Leads(tsorted, u, v) && m != v
    requires Visit(g, exploring, tsorted, read, m).Finished?
    requires Within(Visit(g, exploring, tsorted, read, m).tsorted, listed)
    ensures Leads(Visit(g, exploring, tsorted, read, m).tsorted, u, v)
    decreases g.Keys - exploring, 0
  {
    if m !in tsorted && m in g {
      var kids := Targets(g[m], Private);
      var below := VisitAll(g, exploring + {m}, tsorted, read + {m}, kids);
      assert Visit(g, exploring, tsorted, read, m).tsorted == below.tsorted + [m];
      if v in kids {
        EdgeIsTarget(g, m, v);
        assert m in below.tsorted + [m];
        PastSooner(g, exploring + {m}, tsorted, read + {m}, kids, listed, n, u, v);
      } else {
        VisitAllKeepsLead(g, exploring + {m}, tsorted, read + {m}, kids, listed, n, u, v);
      }
      LeadsWithOther(below.tsorted, u, v, m);
    } else if m !in tsorted {
      LeadsWithOther(tsorted, u, v, m);
    }
  }

  lemma {:induction false} VisitAllKeepsLead(
      g: Graph, exploring: set<Node>, tsorted: seq<Node>, read: set<Node>, ns: seq<Node>,
      listed: set<Node>, n: Option<Node>, u: Node, v: Node)
    requires OnlyPast(g, listed, n, u, v) && Leads(tsorted, u, v) && v !in ns
    requires VisitAll(g, exploring, tsorted, read, ns).Finished?
    requires Within(VisitAll(g, exploring, tsorted, read, ns).tsorted, listed)
    ensures Leads(VisitAll(g, exploring, tsorted, read, ns).tsorted, u, v)
    decreases g.Keys - exploring, |ns|
  {
    if ns != [] {
      var first := Visit(g, exploring, tsorted, read, ns[0]);
      VisitAllExtends(g, exploring, first.tsorted, first.read, ns[1..]);
      VisitKeepsLead(g, exploring, tsorted, read, ns[0], listed, n, u, v);
      VisitAllKeepsLead(g, exploring, first.tsorted, first.read, ns[1..], listed, n, u, v);
    }
  }

  lemma SplitAtFirst(ns: seq<Node>, v: Node) returns (a: seq<Node>, b: seq<Node>)
    ensures ns == a + b && v !in a && (b == [] || b[0] == v)
  {
    a, b := [], ns;
    while b != [] && b[0] != v
      invariant ns == a + b && v !in a
      decreases |b|
    {
      a, b := a + [b[0]], b[1..];
    }
  }

  /** Children that have `u` in front of `v` list `u` before `v`, whatever else they lead to. */
  lemma {:induction false} PastSooner(
      g: Graph, exploring: set<Node>, tsorted: seq<Node>, read: set<Node>, ns: seq<Node>,
      listed: set<Node>, n: Option<Node>, u: Node, v: Node)
    requires OnlyPast(g, listed, n, u, v) && Leads(tsorted, u, v) && Sooner(ns, u, v)
    requires VisitAll(g, exploring, tsorted, read, ns).Finished?
    requires Within(VisitAll(g, exploring, tsorted, read, ns).tsorted, listed)
    ensures Leads(VisitAll(g, exploring, tsorted, read, ns).tsorted, u, v)
    decreases g.Keys - exploring, |ns| + 1
  {
    var a, b := SplitAtFirst(ns, v);
    VisitAllSplits(g, exploring, tsorted, read, a, b);
    var r := VisitAll(g, exploring, tsorted, read, a);
    VisitAllExtends(g, exploring, tsorted, read, a);
    VisitAllExtends(g, exploring, r.tsorted, r.read, b);
    VisitAllKeepsLead(g, exploring, tsorted, read, a, listed, n, u, v);
    assert u in a by {
      if b != [] {
        assert ns[|a|] == v && ns[..|a|] == a;
      }
    }
    LeadsStays(r.tsorted, VisitAll(g, exploring, tsorted, read, ns).tsorted, u, v);
  }

  // ---- By name --------------------------------------------------------------------------------------------

  lemma SortedChildrenSooner(d: Graph, n: Node, skip: Visibility, u: Node, v: Node)
    requires u in Targets(Direct(Ordered(d), n), skip) && Precedes(u.path, v.path)
    ensures Sooner(Targets(Direct(Ordered(d), n), skip), u, v)
  {
    var kids := Targets(Direct(Ordered(d), n), skip);
    assert SortedBy(kids, NodeByPath) by {
      if n in d {
        ByPathIsPreorder();
        SortSorts(d[n], ByPath);
        TargetsSorted(Sort(d[n], ByPath), skip);
      }
    }
    PrecedesIsStrict(u.path, v.path);
    var i :| 0 <= i < |kids| && kids[i] == u;
    assert forall j :: 0 <= j < i ==> NodeByPath(kids[j], u);
    forall j | 0 <= j < |kids| && kids[j] == v ensures u in kids[..j] {
      assert kids[..j][i] == u;
    }
  }

  /** Where two nodes stand in an answer. */
  ghost predicate ComesFirst(libs: seq<Node>, v: Node, u: Node) {
    forall i, j :: 0 <= i < |libs| && 0 <= j < |libs| && libs[i] == v && libs[j] == u ==> i < j
  }

  lemma LeadIndex(order: seq<Node>, u: Node, v: Node, i: nat, j: nat)
    requires Distinct(order) && Leads(order, u, v)
    requires i < |order| && j < |order| && order[i] == v && order[j] == u
    ensures j < i
  {
    var k :| 0 <= k < i && order[..i][k] == u;
    assert order[k] == u;
  }

  lemma LeadIsFirst(order: seq<Node>, u: Node, v: Node)
    requires Distinct(order) && Leads(order, u, v)
    ensures ComesFirst(order, u, v)
  {
    forall i, j | 0 <= i < |order| && 0 <= j < |order| && order[i] == u && order[j] == v ensures i < j {
      LeadIndex(order, u, v, j, i);
    }
  }

  lemma ReversedFirst(order: seq<Node>, u: Node, v: Node)
    requires ComesFirst(order, u, v)
    ensures ComesFirst(Reverse(order), v, u)
  {
    var n, libs := |order|, Reverse(order);
    forall i, j | 0 <= i < n && 0 <= j < n && libs[i] == v && libs[j] == u ensures i < j {
      var i', j' := n - 1 - i, n - 1 - j;
      assert order[i'] == v && order[j'] == u;
    }
  }

  /** Of two libraries that the root follows, the one with the smaller name comes later in the answer, unless the
      other is also followed from a library in it. */
  lemma RootChildrenByName(d: Graph, root: Node, u: Node, v: Node)
    requires UncachedAnswer(d, root).Sorted?
    requires var g := Ordered(d);
             && RootEdge(g, root, u) && RootEdge(g, root, v)
             && forall w :: w in UncachedAnswer(d, root).libs ==> !Edge(g, w, v)
    requires Precedes(u.path, v.path)
    ensures ComesFirst(UncachedAnswer(d, root).libs, v, u)
  {
    var g := Ordered(d);
    var roots := Targets(Direct(g, root), Interface);
    var order := ResolveVisit(g, root).tsorted;
    RootEdgeIsTarget(g, root, u);
    SortedChildrenSooner(d, root, Interface, u, v);
    VisitAllFinishes(g, {}, [], {root}, roots);
    ReverseMembers(order);
    PastSooner(g, {}, [], {root}, roots, (set m | m in order), None, u, v);
    LeadIsFirst(order, u, v);
    ReversedFirst(order, u, v);
  }

  /** The same for two libraries that a listed library follows. */
  lemma ChildrenByName(d: Graph, root: Node, n: Node, u: Node, v: Node)
    requires UncachedAnswer(d, root).Sorted?
    requires var g := Ordered(d);
             && Edge(g, n, u) && Edge(g, n, v) && !RootEdge(g, root, v)
             && forall w :: w in UncachedAnswer(d, root).libs && Edge(g, w, v) ==> w == n
    requires Precedes(u.path, v.path)
    ensures ComesFirst(UncachedAnswer(d, root).libs, v, u)
  {
    var g := Ordered(d);
    var roots := Targets(Direct(g, root), Interface);
    var order := ResolveVisit(g, root).tsorted;
    EdgeIsTarget(g, n, u);
    RootEdgeIsTarget(g, root, v);
    SortedChildrenSooner(d, n, Private, u, v);
    VisitAllFinishes(g, {}, [], {root}, roots);
    ReverseMembers(order);
    VisitAllKeepsLead(g, {}, [], {root}, roots, (set m | m in order), Some(n), u, v);
    LeadIsFirst(order, u, v);
    ReversedFirst(order, u, v);
  }

  /** If nothing that the root follows follows anything, the answer is in descending order of names. */
  lemma LeavesByDescendingName(d: Graph, root: Node, i: nat, j: nat)
    requires UncachedAnswer(d, root).Sorted?
    requires forall v, w :: RootEdge(Ordered(d), root, v) ==> !Edge(Ordered(d), v, w)
    requires i < j < |UncachedAnswer(d, root).libs|
    ensures var libs := UncachedAnswer(d, root).libs;
            libs[i].path == libs[j].path || Precedes(libs[j].path, libs[i].path)
  {
    var g, libs := Ordered(d), UncachedAnswer(d, root).libs;
    ResolveSorts(g, root);
    forall v | v in libs ensures RootEdge(g, root, v) {
      OnlyRootEdges(g, root, v);
    }
    assert libs[i] in libs && libs[j] in libs;
    StringLeTotal(libs[i].path, libs[j].path);
    StringLeIsLexicographic(libs[i].path, libs[j].path);
    StringLeIsLexicographic(libs[j].path, libs[i].path);
    if Precedes(libs[i].path, libs[j].path) {
      RootChildrenByName(d, root, libs[i], libs[j]);
    }
  }

  lemma OnlyRootEdges(g: Graph, root: Node, v: Node)
    requires DependsOn(g, root, v) && forall u, w :: RootEdge(g, root, u) ==> !Edge(g, u, w)
    ensures RootEdge(g, root, v)
  {
    var u :| RootEdge(g, root, u) && Reaches(g, u, v);
    var w :| WalkBetween(g, w, u, v);
    if |w| > 1 {
      FirstEdge(g, w);
    }
  }

  lemma FirstEdge(g: Graph, w: seq<Node>)
    requires IsWalk(g, w) && |w| > 1
    ensures Edge(g, w[0], w[1])
  {
    var i := 0;
    assert Edge(g, w[i], w[i + 1]);
  }
}
