/** Honouring declared visibilities never adds a dependency or an error over ignoring them. */
module DependencyVisibility {
  import opened Basics
  import opened Ordering
  import opened DependencyGraph
  import opened DependencyCaches
  import opened Libdeps

  /** The direct dependencies after a series of builder calls, all with one visibility map. */
  function DeclareAll(g: Graph, es: seq<(Emission, bool)>, m: Visibility -> Visibility): Graph
    requires forall e :: e in es ==> HasTarget(e.0)
    decreases |es|
  {
    if es == [] then g
    else
      assert es[0] in es;
      DeclareAll(Emitted(g, es[0].0, m, es[0].1), es[1..], m)
  }

  ghost predicate MadePublic(d: seq<Dependency>, e: seq<Dependency>) {
    && |d| == |e|
    && forall i :: 0 <= i < |d| ==> d[i].target == e[i].target && e[i].kind == Public
  }

  ghost predicate Relaxed(d: Graph, e: Graph) {
    && d.Keys == e.Keys
    && forall n :: n in d ==> MadePublic(d[n], e[n])
  }

  lemma AppendKeepsRelaxed(d: Graph, e: Graph, n: Node, a: seq<Dependency>, b: seq<Dependency>)
    requires Relaxed(d, e) && MadePublic(a, b)
    ensures Relaxed(AppendTo(d, n, a), AppendTo(e, n, b))
  {}

  lemma {:induction false} AppendToEachKeepsRelaxed(
      d: Graph, e: Graph, ns: seq<Node>, a: seq<Dependency>, b: seq<Dependency>)
    requires Relaxed(d, e) && MadePublic(a, b)
    ensures Relaxed(AppendToEach(d, ns, a), AppendToEach(e, ns, b))
    decreases |ns|
  {
    if ns != [] {
      AppendKeepsRelaxed(d, e, ns[0], a, b);
      AppendToEachKeepsRelaxed(AppendTo(d, ns[0], a), AppendTo(e, ns[0], b), ns[1..], a, b);
    }
  }

  lemma {:induction false} DependentsKeepRelaxed(
      d: Graph, e: Graph, ds: seq<Dependent>, target: Node, default: Visibility)
    requires Relaxed(d, e)
    ensures Relaxed(AppendDependents(d, ds, target, default, HonorVisibility),
                    AppendDependents(e, ds, target, default, IgnoreVisibility))
    decreases |ds|
  {
    if ds != [] {
      var v := VisibilityOf(ds[0], default);
      var a, b := [Dependency(target, v)], [Dependency(target, Public)];
      AppendKeepsRelaxed(d, e, ds[0].node, a, b);
      DependentsKeepRelaxed(AppendTo(d, ds[0].node, a), AppendTo(e, ds[0].node, b), ds[1..], target, default);
    }
  }

  lemma EmissionKeepsRelaxed(d: Graph, e: Graph, em: Emission, ignoreProgdeps: bool)
    requires Relaxed(d, e) && HasTarget(em)
    ensures Relaxed(Emitted(d, em, HonorVisibility, ignoreProgdeps), Emitted(e, em, IgnoreVisibility, ignoreProgdeps))
  {
    var a, b := Prerequisites(em, HonorVisibility), Prerequisites(em, IgnoreVisibility);
    AppendToEachKeepsRelaxed(d, e, em.targets, a, b);
    if em.targets != [] {
      var d1, e1 := AppendToEach(d, em.targets, a), AppendToEach(e, em.targets, b);
      DependentsKeepRelaxed(d1, e1, em.libDependents, em.targets[0], Private);
      DependentsKeepRelaxed(AppendDependents(d1, em.libDependents, em.targets[0], Private, HonorVisibility),
                            AppendDependents(e1, em.libDependents, em.targets[0], Private, IgnoreVisibility),
                            em.progDependents, em.targets[0], Public);
    }
  }

  lemma {:induction false} DeclarationsRelaxed(d: Graph, e: Graph, es: seq<(Emission, bool)>)
    requires Relaxed(d, e)
    requires forall em :: em in es ==> HasTarget(em.0)
    ensures Relaxed(DeclareAll(d, es, HonorVisibility), DeclareAll(e, es, IgnoreVisibility))
    decreases |es|
  {
    if es != [] {
      assert es[0] in es;
      EmissionKeepsRelaxed(d, e, es[0].0, es[0].1);
      DeclarationsRelaxed(Emitted(d, es[0].0, HonorVisibility, es[0].1),
                          Emitted(e, es[0].0, IgnoreVisibility, es[0].1), es[1..]);
    }
  }

  // ---- What relaxing does to answers -----------------------------------------------------------

  lemma RelaxedIncludes(d: Graph, e: Graph)
    requires Relaxed(d, e)
    ensures Includes(Ordered(d), Ordered(e))
  {
    var g, h := Ordered(d), Ordered(e);
    forall u, a | a in Direct(g, u) ensures Edge(h, u, a.target) && RootEdge(h, u, a.target) {
      SortMembers(d[u], ByPath);
      SortMembers(e[u], ByPath);
      var i :| 0 <= i < |d[u]| && d[u][i] == a;
      assert MadePublic(d[u], e[u]);
      assert e[u][i] in Direct(h, u) && e[u][i].target == a.target;
    }
  }

  /** The same builder calls under both maps: honouring is never larger and never fails first. */
  lemma HonoringShrinksAnswers(es: seq<(Emission, bool)>, root: Node)
    requires forall em :: em in es ==> HasTarget(em.0)
    ensures var honored := UncachedAnswer(DeclareAll(map[], es, HonorVisibility), root);
            var ignored := UncachedAnswer(DeclareAll(map[], es, IgnoreVisibility), root);
            ignored.Sorted? ==> honored.Sorted? && forall v :: v in honored.libs ==> v in ignored.libs
  {
    var d, e := DeclareAll(map[], es, HonorVisibility), DeclareAll(map[], es, IgnoreVisibility);
    DeclarationsRelaxed(map[], map[], es);
    RelaxedIncludes(d, e);
    IncludedAnswers(Ordered(d), Ordered(e), root);
  }

  // ---- What honoured declarations mean -----------------------------------------------------------------

  /** A dependent entry with this visibility, given or by default. */
  ghost predicate ListsDependent(ds: seq<Dependent>, n: Node, kind: Visibility, default: Visibility) {
    exists x :: x in ds && x.node == n && (x.visibility == Some(kind) || (x.visibility == None && kind == default))
  }

  /** One builder call declares `t` as a dependency of `n` with this visibility. */
  ghost predicate CallDeclares(call: (Emission, bool), n: Node, t: Node, kind: Visibility) {
    var e := call.0;
    || (n in e.targets &&
        match kind
        case Public => t in e.public
        case Interface => t in e.interface
        case Private => t in e.private)
    || (e.targets != [] && t == e.targets[0] &&
        (|| ListsDependent(e.libDependents, n, kind, Private)
         || (!call.1 && ListsDependent(e.progDependents, n, kind, Public))))
  }

  ghost predicate Declare(es: seq<(Emission, bool)>, n: Node, t: Node, kind: Visibility) {
    exists call :: call in es && CallDeclares(call, n, t, kind)
  }

  lemma DependentsHonored(ds: seq<Dependent>, n: Node, kind: Visibility, default: Visibility)
    ensures HasDependent(ds, n, kind, default, HonorVisibility) <==> ListsDependent(ds, n, kind, default)
  {
    if HasDependent(ds, n, kind, default, HonorVisibility) {
      var x :| x in ds && x.node == n && kind == HonorVisibility(VisibilityOf(x, default));
      assert x.visibility == Some(kind) || (x.visibility == None && kind == default);
    }
    if ListsDependent(ds, n, kind, default) {
      var x :| x in ds && x.node == n && (x.visibility == Some(kind) || (x.visibility == None && kind == default));
      assert kind == HonorVisibility(VisibilityOf(x, default));
    }
  }

  lemma CallHonored(call: (Emission, bool), n: Node, d: Dependency)
    ensures Declares(call.0, HonorVisibility, call.1, n, d) <==> CallDeclares(call, n, d.target, d.kind)
  {
    DependentsHonored(call.0.libDependents, n, d.kind, Private);
    DependentsHonored(call.0.progDependents, n, d.kind, Public);
  }

  lemma {:induction false} HonoredFrom(g: Graph, es: seq<(Emission, bool)>, n: Node, d: Dependency)
    requires forall e :: e in es ==> HasTarget(e.0)
    ensures d in Direct(DeclareAll(g, es, HonorVisibility), n) <==>
            d in Direct(g, n) || Declare(es, n, d.target, d.kind)
    decreases |es|
  {
    if es != [] {
      var call, rest := es[0], es[1..];
      assert call in es && es == [call] + rest;
      HonoredFrom(Emitted(g, call.0, HonorVisibility, call.1), rest, n, d);
      EmittedDependencies(g, call.0, HonorVisibility, call.1, n, d);
      CallHonored(call, n, d);
      assert Declare(es, n, d.target, d.kind) <==>
             CallDeclares(call, n, d.target, d.kind) || Declare(rest, n, d.target, d.kind);
    }
  }

  /** Under the honouring map a node has exactly the dependencies declared for it, each with its visibility. */
  lemma HonoredDeclarations(es: seq<(Emission, bool)>, n: Node, d: Dependency)
    requires forall e :: e in es ==> HasTarget(e.0)
    ensures d in Direct(DeclareAll(map[], es, HonorVisibility), n) <==> Declare(es, n, d.target, d.kind)
  {
    HonoredFrom(map[], es, n, d);
  }

  /** The steps that count: from the root what is not Interface, below it what is not Private. */
  ghost predicate IsChain(es: seq<(Emission, bool)>, root: Node, chain: seq<Node>) {
    && chain != []
    && (Declare(es, root, chain[0], Public) || Declare(es, root, chain[0], Private))
    && forall i :: 0 <= i < |chain| - 1 ==> FollowedBelow(es, chain[i], chain[i + 1])
  }

  ghost predicate FollowedBelow(es: seq<(Emission, bool)>, n: Node, t: Node) {
    Declare(es, n, t, Public) || Declare(es, n, t, Interface)
  }

  lemma OrderedMembers(d: Graph, n: Node, a: Dependency)
    ensures a in Direct(Ordered(d), n) <==> a in Direct(d, n)
  {
    if n in d {
      SortMembers(d[n], ByPath);
    }
  }

  lemma HonoredMember(es: seq<(Emission, bool)>, n: Node, t: Node, kind: Visibility)
    requires forall e :: e in es ==> HasTarget(e.0)
    ensures var g := Ordered(DeclareAll(map[], es, HonorVisibility));
            Dependency(t, kind) in Direct(g, n) <==> Declare(es, n, t, kind)
  {
    HonoredDeclarations(es, n, Dependency(t, kind));
    OrderedMembers(DeclareAll(map[], es, HonorVisibility), n, Dependency(t, kind));
  }

  lemma HonoredEdges(es: seq<(Emission, bool)>, n: Node, t: Node)
    requires forall e :: e in es ==> HasTarget(e.0)
    ensures var g := Ordered(DeclareAll(map[], es, HonorVisibility));
            && (Edge(g, n, t) <==> FollowedBelow(es, n, t))
            && (RootEdge(g, n, t) <==> Declare(es, n, t, Public) || Declare(es, n, t, Private))
  {
    var g := Ordered(DeclareAll(map[], es, HonorVisibility));
    HonoredMember(es, n, t, Public);
    HonoredMember(es, n, t, Interface);
    HonoredMember(es, n, t, Private);
    assert forall d: Dependency :: d.target == t ==> d == Dependency(t, d.kind);
  }

  lemma ChainIsDependency(es: seq<(Emission, bool)>, root: Node, v: Node)
    requires forall e :: e in es ==> HasTarget(e.0)
    ensures var g := Ordered(DeclareAll(map[], es, HonorVisibility));
            DependsOn(g, root, v) <==> exists chain :: IsChain(es, root, chain) && chain[|chain| - 1] == v
  {
    var g := Ordered(DeclareAll(map[], es, HonorVisibility));
    forall n, t ensures Edge(g, n, t) <==> FollowedBelow(es, n, t) {
      HonoredEdges(es, n, t);
    }
    if DependsOn(g, root, v) {
      var u :| RootEdge(g, root, u) && Reaches(g, u, v);
      var w :| WalkBetween(g, w, u, v);
      HonoredEdges(es, root, u);
      assert IsChain(es, root, w);
    }
    if exists chain :: IsChain(es, root, chain) && chain[|chain| - 1] == v {
      var chain :| IsChain(es, root, chain) && chain[|chain| - 1] == v;
      HonoredEdges(es, root, chain[0]);
      assert WalkBetween(g, chain, chain[0], v);
    }
  }

  /** A query under the honouring map lists exactly the libraries at the end of a chain of declarations: Public or
      Private for the first step, Public or Interface for every further one. */
  lemma HonoredAnswer(es: seq<(Emission, bool)>, root: Node, v: Node)
    requires forall e :: e in es ==> HasTarget(e.0)
    requires UncachedAnswer(DeclareAll(map[], es, HonorVisibility), root).Sorted?
    ensures v in UncachedAnswer(DeclareAll(map[], es, HonorVisibility), root).libs <==>
            exists chain :: IsChain(es, root, chain) && chain[|chain| - 1] == v
  {
    ResolveSorts(Ordered(DeclareAll(map[], es, HonorVisibility)), root);
    ChainIsDependency(es, root, v);
  }
}
