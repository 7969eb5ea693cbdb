/** Typed library dependencies, the depth-first resolver over them, and what the resolver guarantees. */
module DependencyGraph {
  import opened Basics
  import opened Ordering

  datatype Visibility = Public | Private | Interface

  /** A SCons node. Identity is `id`; `path` is what `str(node)` gives. */
  datatype Node = Node(id: int, path: string)

  datatype Dependency = Dependency(target: Node, kind: Visibility)

  /** The ordered direct dependencies of every node that has any. */
  type Graph = map<Node, seq<Dependency>>

  /** Result of a query: the libraries in link order, or the nodes of the reported cycle. */
  datatype Answer = Sorted(libs: seq<Node>) | CycleError(cycle: seq<Node>)

  /** State handed back by a visit; `read` collects the nodes whose direct dependencies were looked at. */
  datatype Visited =
    | Finished(tsorted: seq<Node>, read: set<Node>)
    | Raised(cycle: seq<Node>, read: set<Node>)

  function Direct(g: Graph, n: Node): seq<Dependency> {
    if n in g then g[n] else []
  }

  /** The targets of `deps`, in order, leaving out one visibility. */
  function Targets(deps: seq<Dependency>, skip: Visibility): seq<Node> {
    if deps == [] then []
    else (if deps[0].kind != skip then [deps[0].target] else []) + Targets(deps[1..], skip)
  }

  // ---- The resolver, without caches -------------------------------------------------------

  function Visit(g: Graph, exploring: set<Node>, tsorted: seq<Node>, read: set<Node>, n: Node): Visited
    decreases g.Keys - exploring, 0
  {
    if n in exploring then Raised([n], read)
    else if n in tsorted then Finished(tsorted, read)
    else
      var below := if n !in g then Finished(tsorted, read + {n})
                   else VisitAll(g, exploring + {n}, tsorted, read + {n}, Targets(g[n], Private));
      match below
      case Finished(order, r) => Finished(order + [n], r)
      case Raised(c, r) => Raised(Unwind(c, n), r)
  }

  function VisitAll(g: Graph, exploring: set<Node>, tsorted: seq<Node>, read: set<Node>, ns: seq<Node>): Visited
    decreases g.Keys - exploring, |ns|
  {
    if ns == [] then Finished(tsorted, read)
    else
      var first := Visit(g, exploring, tsorted, read, ns[0]);
      match first
      case Finished(order, r) => VisitAll(g, exploring, order, r, ns[1..])
      case Raised(_, _) => first
  }

  /** The exception handler of one frame: the cycle grows at the front until it closes. */
  function Unwind(cycle: seq<Node>, n: Node): seq<Node>
  {
    if |cycle| <= 1 || cycle[0] != cycle[|cycle| - 1] then [n] + cycle else cycle
  }

  function Reverse<T>(s: seq<T>): (r: seq<T>)
    ensures |r| == |s|
    ensures forall i :: 0 <= i < |s| ==> r[i] == s[|s| - 1 - i]
  {
    if s == [] then [] else Reverse(s[1..]) + [s[0]]
  }

  function ResolveVisit(g: Graph, root: Node): Visited {
    VisitAll(g, {}, [], {root}, Targets(Direct(g, root), Interface))
  }

  function Resolve(g: Graph, root: Node): Answer {
    match ResolveVisit(g, root)
    case Finished(order, _) => Sorted(Reverse(order))
    case Raised(c, _) => CycleError(c)
  }

  /** One frame of `visit`, given the outcome of its children. */
  function Leave(below: Visited, n: Node): Visited {
    match below
    case Finished(order, r) => Finished(order + [n], r)
    case Raised(c, r) => Raised(Unwind(c, n), r)
  }

  lemma VisitUnfolds(g: Graph, exploring: set<Node>, tsorted: seq<Node>, read: set<Node>, n: Node)
    requires n !in exploring && n !in tsorted
    ensures Visit(g, exploring, tsorted, read, n) ==
            Leave(VisitAll(g, exploring + {n}, tsorted, read + {n}, Targets(Direct(g, n), Private)), n)
  {}

  lemma VisitAllUnfolds(
      g: Graph, exploring: set<Node>, tsorted: seq<Node>, read: set<Node>, deps: seq<Dependency>, skip: Visibility)
    requires deps != []
    ensures var all := VisitAll(g, exploring, tsorted, read, Targets(deps, skip));
            if deps[0].kind == skip then all == VisitAll(g, exploring, tsorted, read, Targets(deps[1..], skip))
            else
              var first := Visit(g, exploring, tsorted, read, deps[0].target);
              all == if first.Raised? then first
                     else VisitAll(g, exploring, first.tsorted, first.read, Targets(deps[1..], skip))
  {
    var rest := Targets(deps[1..], skip);
    if deps[0].kind == skip {
      assert Targets(deps, skip) == [] + rest == rest;
    } else {
      assert Targets(deps, skip) == [deps[0].target] + rest;
      assert ([deps[0].target] + rest)[1..] == rest;
    }
  }

  // ---- Vocabulary of the guarantees -------------------------------------------------------

  /** A dependency that is followed below the root: anything but Private. */
  ghost predicate Edge(g: Graph, u: Node, v: Node) {
    exists d :: d in Direct(g, u) && d.target == v && d.kind != Private
  }

  /** A dependency that is followed at the root: anything but Interface. */
  ghost predicate RootEdge(g: Graph, root: Node, v: Node) {
    exists d :: d in Direct(g, root) && d.target == v && d.kind != Interface
  }

  ghost predicate IsWalk(g: Graph, w: seq<Node>) {
    forall i :: 0 <= i < |w| - 1 ==> Edge(g, w[i], w[i + 1])
  }

  ghost predicate WalkBetween(g: Graph, w: seq<Node>, u: Node, v: Node) {
    && w != [] && w[0] == u && w[|w| - 1] == v
    && IsWalk(g, w)
  }

  ghost predicate Reaches(g: Graph, u: Node, v: Node) {
    exists w :: WalkBetween(g, w, u, v)
  }

  /** One non-Interface edge from the root, then non-Private edges. */
  ghost predicate DependsOn(g: Graph, root: Node, v: Node) {
    exists u :: RootEdge(g, root, u) && Reaches(g, u, v)
  }

  /** A closed walk of at least two entries whose only repetition is that the ends meet. */
  ghost predicate IsCycle(g: Graph, c: seq<Node>) {
    && |c| >= 2 && c[0] == c[|c| - 1]
    && IsWalk(g, c)
    && Distinct(c[1..])
  }

  /** Every dependency of an entry stands before it (the order `tsorted` has while it grows). */
  ghost predicate PostOrder(g: Graph, s: seq<Node>) {
    forall i, v :: 0 <= i < |s| && Edge(g, s[i], v) ==> v in s[..i]
  }

  lemma {:induction false} TargetsMembers(deps: seq<Dependency>, skip: Visibility, v: Node)
    ensures v in Targets(deps, skip) <==> exists d :: d in deps && d.target == v && d.kind != skip
  {
    if deps != [] {
      TargetsMembers(deps[1..], skip, v);
      assert deps == [deps[0]] + deps[1..];
    }
  }

  lemma EdgeIsTarget(g: Graph, u: Node, v: Node)
    ensures Edge(g, u, v) <==> v in Targets(Direct(g, u), Private)
  {
    TargetsMembers(Direct(g, u), Private, v);
  }

  lemma ReachesItself(g: Graph, u: Node)
    ensures Reaches(g, u, u)
  {
    assert WalkBetween(g, [u], u, u);
  }

  lemma ReachesThroughEdge(g: Graph, u: Node, v: Node, w: Node)
    requires Edge(g, u, v) && Reaches(g, v, w)
    ensures Reaches(g, u, w)
  {
    var p :| WalkBetween(g, p, v, w);
    var q := [u] + p;
    assert forall i :: 0 < i < |q| - 1 ==> q[i] == p[i - 1] && q[i + 1] == p[i];
    assert WalkBetween(g, q, u, w);
  }

  // ---- Normal exit --------------------------------------------------------------------------

  /** What a visit that does not raise has done to `tsorted`, started below `exploring`. */
  ghost predicate Extended(g: Graph, exploring: set<Node>, before: seq<Node>, after: seq<Node>, from: seq<Node>) {
    && before <= after
    && Distinct(after) && PostOrder(g, after)
    && (forall v :: v in from ==> v in after)
    && (forall v :: v in after ==> v !in exploring)
    && (forall v :: v in after && v !in before ==> exists u :: u in from && Reaches(g, u, v))
  }

  lemma {:induction false} VisitFinishes(g: Graph, exploring: set<Node>, tsorted: seq<Node>, read: set<Node>, n: Node)
    requires Distinct(tsorted) && PostOrder(g, tsorted)
    requires forall v :: v in tsorted ==> v !in exploring
    ensures var r := Visit(g, exploring, tsorted, read, n);
            r.Finished? ==> Extended(g, exploring, tsorted, r.tsorted, [n])
    decreases g.Keys - exploring, 0
  {
    if n !in exploring && n !in tsorted {
      var kids := Targets(Direct(g, n), Private);
      var below := Finished(tsorted, read + {n});
      if n in g {
        VisitAllFinishes(g, exploring + {n}, tsorted, read + {n}, kids);
        below := VisitAll(g, exploring + {n}, tsorted, read + {n}, kids);
      }
      if below.Finished? {
        ExtendedByParent(g, exploring, tsorted, below.tsorted, n);
      }
    }
  }

  lemma ExtendedByParent(g: Graph, exploring: set<Node>, before: seq<Node>, order: seq<Node>, n: Node)
    requires n !in exploring
    requires Extended(g, exploring + {n}, before, order, Targets(Direct(g, n), Private))
    ensures Extended(g, exploring, before, order + [n], [n])
  {
    PostOrderGrows(g, order, n);
    forall v | v in order + [n] && v !in before ensures exists u :: u in [n] && Reaches(g, u, v) {
      if v == n {
        ReachesItself(g, n);
      } else {
        var u :| u in Targets(Direct(g, n), Private) && Reaches(g, u, v);
        EdgeIsTarget(g, n, u);
        ReachesThroughEdge(g, n, u, v);
      }
      assert n in [n];
    }
  }

  lemma PostOrderGrows(g: Graph, order: seq<Node>, n: Node)
    requires PostOrder(g, order)
    requires forall v :: v in Targets(Direct(g, n), Private) ==> v in order
    ensures PostOrder(g, order + [n])
  {
    var s := order + [n];
    forall i, v | 0 <= i < |s| && Edge(g, s[i], v) ensures v in s[..i] {
      EdgeIsTarget(g, s[i], v);
      if i < |order| {
        assert s[..i] == order[..i];
      } else {
        assert s[..i] == order;
      }
    }
  }

  lemma {:induction false} VisitAllFinishes(
      g: Graph, exploring: set<Node>, tsorted: seq<Node>, read: set<Node>, ns: seq<Node>)
    requires Distinct(tsorted) && PostOrder(g, tsorted)
    requires forall v :: v in tsorted ==> v !in exploring
    ensures var r := VisitAll(g, exploring, tsorted, read, ns);
            r.Finished? ==> Extended(g, exploring, tsorted, r.tsorted, ns)
    decreases g.Keys - exploring, |ns|
  {
    if ns != [] {
      VisitFinishes(g, exploring, tsorted, read, ns[0]);
      var first := Visit(g, exploring, tsorted, read, ns[0]);
      if first.Finished? {
        VisitAllFinishes(g, exploring, first.tsorted, first.read, ns[1..]);
        var rest := VisitAll(g, exploring, first.tsorted, first.read, ns[1..]);
        if rest.Finished? {
          ExtendedTwice(g, exploring, tsorted, first.tsorted, rest.tsorted, ns);
        }
      }
    }
  }

  lemma ExtendedTwice(
      g: Graph, exploring: set<Node>, before: seq<Node>, middle: seq<Node>, after: seq<Node>, ns: seq<Node>)
    requires ns != []
    requires Extended(g, exploring, before, middle, [ns[0]])
    requires Extended(g, exploring, middle, after, ns[1..])
    ensures Extended(g, exploring, before, after, ns)
  {
    assert ns == [ns[0]] + ns[1..];
    assert ns[0] in [ns[0]];
    forall v | v in after && v !in before ensures exists u :: u in ns && Reaches(g, u, v) {
      var u :| (u in [ns[0]] || u in ns[1..]) && Reaches(g, u, v);
      assert u in ns;
    }
  }

  // ---- Exceptional exit ---------------------------------------------------------------------

  /** A cycle list on its way up: a simple walk from `n` that ends on a node still being explored. */
  ghost predicate Unwinding(g: Graph, exploring: set<Node>, n: Node, c: seq<Node>) {
    && c != [] && c[0] == n
    && IsWalk(g, c) && Distinct(c)
    && c[|c| - 1] in exploring
    && (forall i :: 0 <= i < |c| - 1 ==> c[i] !in exploring)
  }

  ghost predicate CycleBelow(g: Graph, exploring: set<Node>, n: Node, c: seq<Node>) {
    Unwinding(g, exploring, n, c) || (IsCycle(g, c) && Reaches(g, n, c[0]))
  }

  lemma {:induction false} VisitRaises(g: Graph, exploring: set<Node>, tsorted: seq<Node>, read: set<Node>, n: Node)
    ensures var r := Visit(g, exploring, tsorted, read, n);
            r.Raised? ==> CycleBelow(g, exploring, n, r.cycle)
    decreases g.Keys - exploring, 0
  {
    var r := Visit(g, exploring, tsorted, read, n);
    if r.Raised? && n !in exploring {
      var kids := Targets(g[n], Private);
      var below := VisitAll(g, exploring + {n}, tsorted, read + {n}, kids);
      VisitAllRaises(g, exploring + {n}, tsorted, read + {n}, kids);
      var k :| k in kids && CycleBelow(g, exploring + {n}, k, below.cycle);
      EdgeIsTarget(g, n, k);
      UnwindStep(g, exploring, n, k, below.cycle);
    }
  }

  lemma UnwindStep(g: Graph, exploring: set<Node>, n: Node, k: Node, c: seq<Node>)
    requires n !in exploring && Edge(g, n, k)
    requires CycleBelow(g, exploring + {n}, k, c)
    ensures CycleBelow(g, exploring, n, Unwind(c, n))
  {
    if Unwinding(g, exploring + {n}, k, c) {
      var up := [n] + c;
      assert up == Unwind(c, n);
      assert forall i :: 0 < i < |up| ==> up[i] == c[i - 1];
      assert IsWalk(g, up);
      if c[|c| - 1] == n {
        assert up[1..] == c;
        ReachesItself(g, n);
      }
    } else {
      ReachesThroughEdge(g, n, k, c[0]);
    }
  }

  lemma {:induction false} VisitAllRaises(
      g: Graph, exploring: set<Node>, tsorted: seq<Node>, read: set<Node>, ns: seq<Node>)
    ensures var r := VisitAll(g, exploring, tsorted, read, ns);
            r.Raised? ==> exists n :: n in ns && CycleBelow(g, exploring, n, r.cycle)
    decreases g.Keys - exploring, |ns|
  {
    if ns != [] {
      var first := Visit(g, exploring, tsorted, read, ns[0]);
      VisitRaises(g, exploring, tsorted, read, ns[0]);
      if first.Finished? {
        VisitAllRaises(g, exploring, first.tsorted, first.read, ns[1..]);
      } else {
        assert ns[0] in ns;
      }
    }
  }

  // ---- The two exits exclude each other -----------------------------------------------------

  /** Walks only lead towards the front of a post-ordered list. */
  lemma {:induction false} WalkDescends(g: Graph, s: seq<Node>, w: seq<Node>, i: nat)
    requires PostOrder(g, s) && Distinct(s) && IsWalk(g, w)
    requires w != [] && i < |s| && w[0] == s[i]
    ensures exists j :: 0 <= j <= i && s[j] == w[|w| - 1] && (|w| >= 2 ==> j < i)
    decreases |w|
  {
    if |w| >= 2 {
      assert Edge(g, w[0], w[1]);
      assert w[1] in s[..i];
      var k :| 0 <= k < i && s[..i][k] == w[1];
      assert s[k] == w[1];
      forall j | 0 <= j < |w[1..]| - 1 ensures Edge(g, w[1..][j], w[1..][j + 1]) {
        assert Edge(g, w[j + 1], w[j + 2]);
      }
      WalkDescends(g, s, w[1..], k);
    }
  }

  lemma ReachedStays(g: Graph, s: seq<Node>, u: Node, v: Node)
    requires PostOrder(g, s) && Distinct(s) && u in s && Reaches(g, u, v)
    ensures v in s
  {
    var w :| WalkBetween(g, w, u, v);
    var i :| 0 <= i < |s| && s[i] == u;
    WalkDescends(g, s, w, i);
  }

  lemma NoCycleInPostOrder(g: Graph, s: seq<Node>, c: seq<Node>)
    requires PostOrder(g, s) && Distinct(s) && c != [] && c[0] in s
    ensures !IsCycle(g, c)
  {
    if IsCycle(g, c) {
      var i :| 0 <= i < |s| && s[i] == c[0];
      WalkDescends(g, s, c, i);
    }
  }

  lemma RootEdgeIsTarget(g: Graph, root: Node, v: Node)
    ensures RootEdge(g, root, v) <==> v in Targets(Direct(g, root), Interface)
  {
    TargetsMembers(Direct(g, root), Interface, v);
  }

  /** A query raises exactly when a cycle can be reached, and then reports such a cycle. */
  lemma ResolveRaisesOnCycles(g: Graph, root: Node)
    ensures Resolve(g, root).CycleError? <==> exists c :: IsCycle(g, c) && DependsOn(g, root, c[0])
    ensures Resolve(g, root).CycleError? ==>
              IsCycle(g, Resolve(g, root).cycle) && DependsOn(g, root, Resolve(g, root).cycle[0])
  {
    var roots := Targets(Direct(g, root), Interface);
    var r := ResolveVisit(g, root);
    VisitAllRaises(g, {}, [], {root}, roots);
    if r.Raised? {
      var n :| n in roots && CycleBelow(g, {}, n, r.cycle);
      RootEdgeIsTarget(g, root, n);
    } else {
      VisitAllFinishes(g, {}, [], {root}, roots);
      forall c | IsCycle(g, c) && DependsOn(g, root, c[0]) ensures false {
        var u :| RootEdge(g, root, u) && Reaches(g, u, c[0]);
        RootEdgeIsTarget(g, root, u);
        ReachedStays(g, r.tsorted, u, c[0]);
        NoCycleInPostOrder(g, r.tsorted, c);
      }
    }
  }

  lemma ListedIsDependency(g: Graph, root: Node, order: seq<Node>, v: Node)
    requires Extended(g, {}, [], order, Targets(Direct(g, root), Interface))
    ensures v in order <==> DependsOn(g, root, v)
  {
    var roots := Targets(Direct(g, root), Interface);
    if v in order {
      var u :| u in roots && Reaches(g, u, v);
      RootEdgeIsTarget(g, root, u);
    }
    if DependsOn(g, root, v) {
      var u :| RootEdge(g, root, u) && Reaches(g, u, v);
      RootEdgeIsTarget(g, root, u);
      ReachedStays(g, order, u, v);
    }
  }

  lemma ReversedPostOrder(g: Graph, order: seq<Node>, i: nat, j: nat)
    requires PostOrder(g, order) && Distinct(order) && i < |order| && j < |order|
    requires Edge(g, Reverse(order)[i], Reverse(order)[j])
    ensures i < j
  {
    var i', j' := |order| - 1 - i, |order| - 1 - j;
    assert order[j'] in order[..i'];
  }

  /** A query that returns lists every dependency once, dependents before what they depend on. */
  lemma ResolveSorts(g: Graph, root: Node)
    requires Resolve(g, root).Sorted?
    ensures var libs := Resolve(g, root).libs;
            && Distinct(libs)
            && (forall v :: v in libs <==> DependsOn(g, root, v))
            && (forall i, j :: 0 <= i < |libs| && 0 <= j < |libs| && Edge(g, libs[i], libs[j]) ==> i < j)
  {
    VisitAllFinishes(g, {}, [], {root}, Targets(Direct(g, root), Interface));
    var order := ResolveVisit(g, root).tsorted;
    var libs := Resolve(g, root).libs;
    ReverseMembers(order);
    forall v ensures v in libs <==> DependsOn(g, root, v) {
      ListedIsDependency(g, root, order, v);
    }
    forall i, j | 0 <= i < |libs| && 0 <= j < |libs| && Edge(g, libs[i], libs[j]) ensures i < j {
      ReversedPostOrder(g, order, i, j);
    }
  }

  lemma ReverseMembers<T>(s: seq<T>)
    ensures forall v :: v in Reverse(s) <==> v in s
  {
    forall v | v in s ensures v in Reverse(s) {
      var i :| 0 <= i < |s| && s[i] == v;
      assert Reverse(s)[|s| - 1 - i] == v;
    }
  }

  // ---- More edges ------------------------------------------------------------------------------

  ghost predicate Includes(g: Graph, h: Graph) {
    && (forall u, v :: Edge(g, u, v) ==> Edge(h, u, v))
    && (forall u, v :: RootEdge(g, u, v) ==> RootEdge(h, u, v))
  }

  lemma IncludedDependencies(g: Graph, h: Graph, root: Node, v: Node)
    requires Includes(g, h) && DependsOn(g, root, v)
    ensures DependsOn(h, root, v)
  {
    var u :| RootEdge(g, root, u) && Reaches(g, u, v);
    var w :| WalkBetween(g, w, u, v);
    assert WalkBetween(h, w, u, v);
  }

  /** A query over more edges finds at least the same dependencies and at least the same cycles. */
  lemma IncludedAnswers(g: Graph, h: Graph, root: Node)
    requires Includes(g, h)
    ensures Resolve(h, root).Sorted? ==> Resolve(g, root).Sorted?
    ensures Resolve(g, root).Sorted? ==> forall v :: v in Resolve(g, root).libs ==> DependsOn(h, root, v)
    ensures Resolve(h, root).Sorted? ==> forall v :: v in Resolve(g, root).libs ==> v in Resolve(h, root).libs
  {
    ResolveRaisesOnCycles(g, root);
    ResolveRaisesOnCycles(h, root);
    if Resolve(g, root).CycleError? {
      var c := Resolve(g, root).cycle;
      IncludedDependencies(g, h, root, c[0]);
      assert IsCycle(h, c);
    } else {
      ResolveSorts(g, root);
      forall v | v in Resolve(g, root).libs ensures DependsOn(h, root, v) {
        IncludedDependencies(g, h, root, v);
      }
      if Resolve(h, root).Sorted? {
        ResolveSorts(h, root);
      }
    }
  }
}
