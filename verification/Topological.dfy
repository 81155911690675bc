/** The depth-first topological sort of changed_project_targets.py, which orders the
    rebuild targets of changed packages. */
module Topological {

  type Package = string

  /** Dependencies by package; a package may depend on one that is not a key. */
  type Graph = map<Package, seq<Package>>

  function Dependencies(g: Graph, p: Package): seq<Package> {
    if p in g then g[p] else []
  }

  /** Every key and every dependency of a key. */
  function Packages(g: Graph): set<Package> {
    g.Keys + set k, d | k in g.Keys && d in g[k] :: d
  }

  // ---------------------------------------------------------------------------
  // Paths and cycles
  // ---------------------------------------------------------------------------

  ghost predicate Edge(g: Graph, a: Package, b: Package) {
    b in Dependencies(g, a)
  }

  ghost predicate IsPath(g: Graph, path: seq<Package>) {
    forall i :: 0 <= i < |path| - 1 ==> Edge(g, path[i], path[i + 1])
  }

  /** b is reached from a over at least one dependency. */
  ghost predicate DependsOn(g: Graph, a: Package, b: Package) {
    exists path :: |path| >= 2 && path[0] == a && path[|path| - 1] == b && IsPath(g, path)
  }

  ghost predicate HasCycle(g: Graph) {
    exists p :: DependsOn(g, p, p)
  }

  // ---------------------------------------------------------------------------
  // Orders
  // ---------------------------------------------------------------------------

  /** Every dependency of an entry comes after it. */
  ghost predicate Ordered(g: Graph, order: seq<Package>) {
    forall i, d :: 0 <= i < |order| && Edge(g, order[i], d) ==> d in order[i + 1..]
  }

  ghost predicate NoRepeats(order: seq<Package>) {
    forall i, j :: 0 <= i < j < |order| ==> order[i] != order[j]
  }

  lemma OrderedPrepend(g: Graph, p: Package, order: seq<Package>)
    requires Ordered(g, order) && forall d :: Edge(g, p, d) ==> d in order
    ensures Ordered(g, [p] + order)
  {
    hide Edge;
    var o := [p] + order;
    forall i, d | 0 <= i < |o| && Edge(g, o[i], d) ensures d in o[i + 1..] {
      if i == 0 {
        assert o[1..] == order;
      } else {
        assert o[i + 1..] == order[i..];
        assert o[i] == order[i - 1];
      }
    }
  }

  lemma NoRepeatsPrepend(p: Package, order: seq<Package>)
    requires NoRepeats(order) && p !in order
    ensures NoRepeats([p] + order)
  {
  }

  /** A path runs forward through an order. */
  lemma {:induction false} PathsRunForward(g: Graph, order: seq<Package>, path: seq<Package>, i: nat) returns (j: nat)
    requires Ordered(g, order) && |path| >= 2 && IsPath(g, path)
    requires i < |order| && order[i] == path[0]
    ensures i < j < |order| && order[j] == path[|path| - 1]
    decreases |path|
  {
    hide Edge;
    assert Edge(g, path[0], path[1]);
    var k :| 0 <= k < |order[i + 1..]| && order[i + 1..][k] == path[1];
    j := i + 1 + k;
    if |path| > 2 {
      assert IsPath(g, path[1..]) by {
        forall m | 0 <= m < |path[1..]| - 1 ensures Edge(g, path[1..][m], path[1..][m + 1]) {
          assert Edge(g, path[m + 1], path[m + 1 + 1]);
        }
      }
      j := PathsRunForward(g, order, path[1..], j);
    }
  }

  /** An order of all packages without repetition leaves no room for a cycle. */
  lemma OrderExcludesCycles(g: Graph, order: seq<Package>)
    requires Ordered(g, order) && NoRepeats(order)
    requires forall p :: p in Packages(g) ==> p in order
    ensures !HasCycle(g)
  {
    if HasCycle(g) {
      var p :| DependsOn(g, p, p);
      var path :| |path| >= 2 && path[0] == p && path[|path| - 1] == p && IsPath(g, path);
      assert Edge(g, path[0], path[1]);
      assert p in Packages(g);
      var i :| 0 <= i < |order| && order[i] == p;
      var j := PathsRunForward(g, order, path, i);
    }
  }

  // ---------------------------------------------------------------------------
  // The search
  // ---------------------------------------------------------------------------

  datatype Color = Gray | Black

  class Sorter {
    const graph: Graph
    var order: seq<Package>
    var enter: set<Package>
    var state: map<Package, Color>

    /** Black packages are the ones in `order`, which is right as far as it goes; `path` are
        the gray ones; packages still to be entered have not been visited. */
    ghost predicate Consistent(path: seq<Package>)
      reads this
    {
      && Ordered(graph, order) && NoRepeats(order)
      && (forall p :: p in order <==> p in state && state[p] == Black)
      && (forall p :: p in path <==> p in state && state[p] == Gray)
      && IsPath(graph, path)
      && enter !! state.Keys
      && enter + state.Keys <= Packages(graph)
    }

    constructor (graph: Graph)
      ensures this.graph == graph && Consistent([])
      ensures state.Keys == {} && enter == graph.Keys
    {
      this.graph := graph;
      order, enter, state := [], graph.Keys, map[];
    }

    method MarkGray(node: Package, ghost path: seq<Package>)
      requires Consistent(path) && IsPath(graph, path + [node])
      requires node in Packages(graph) && node !in state && node !in enter
      modifies this`state
      ensures Consistent(path + [node]) && state.Keys == old(state.Keys) + {node}
      ensures node !in path && IsPath(graph, path)
    {
      hide Ordered, IsPath, NoRepeats, Packages;
      state := state[node := Gray];
    }

    method MarkBlack(node: Package, ghost path: seq<Package>)
      requires Consistent(path + [node]) && node !in path && IsPath(graph, path)
      requires forall d :: Edge(graph, node, d) ==> d in order
      modifies this`state, this`order
      ensures Consistent(path) && order == [node] + old(order) && state.Keys == old(state.Keys)
    {
      hide Ordered, IsPath, NoRepeats, Packages, Edge;
      OrderedPrepend(graph, node, order);
      NoRepeatsPrepend(node, order);
      order := [node] + order;
      state := state[node := Black];
    }

    method Discard(k: Package, ghost path: seq<Package>)
      requires Consistent(path)
      modifies this`enter
      ensures Consistent(path) && enter == old(enter) - {k}
    {
      hide Ordered, IsPath, NoRepeats, Packages;
      enter := enter - {k};
    }

    lemma Colors(path: seq<Package>, k: Package)
      requires Consistent(path) && k in state
      ensures state[k] == Gray ==> k in path
      ensures state[k] == Black ==> k in order
    {
      hide Ordered, IsPath, NoRepeats, Packages;
    }

    lemma Facts(path: seq<Package>)
      requires Consistent(path)
      ensures IsPath(graph, path) && state.Keys <= Packages(graph)
    {
      hide Ordered, IsPath, NoRepeats, Packages;
    }

    /** dfs; false stands for the exception. `path` leads to `node`. */
    method Dfs(node: Package, ghost path: seq<Package>) returns (ok: bool)
      requires Consistent(path) && IsPath(graph, path + [node])
      requires node in Packages(graph) && node !in state && node !in enter
      requires graph.Keys <= enter + state.Keys + {node}
      modifies this
      ensures !ok ==> HasCycle(graph)
      ensures ok ==> Consistent(path) && node in order && graph.Keys <= enter + state.Keys
      ensures ok ==> old(state).Keys <= state.Keys && enter <= old(enter)
      ensures ok ==> forall p :: p in old(order) ==> p in order
      decreases Packages(graph) - state.Keys, 0
    {
      hide Ordered, IsPath, HasCycle, NoRepeats, Packages, Consistent;
      MarkGray(node, path);
      Facts(path + [node]);
      var deps := Dependencies(graph, node);
      for i := 0 to |deps|
        invariant Consistent(path + [node]) && graph.Keys <= enter + state.Keys
        invariant forall j :: 0 <= j < i ==> deps[j] in order
        invariant forall p :: p in old(order) ==> p in order
        invariant old(state).Keys + {node} <= state.Keys && enter <= old(enter)
      {
        ok := Visit(node, deps[i], path);
        if !ok {
          return;
        }
      }
      MarkBlack(node, path);
      ok := true;
    }

    /** One turn of the loop over the dependencies. */
    method Visit(node: Package, k: Package, ghost path: seq<Package>) returns (ok: bool)
      requires Consistent(path + [node]) && graph.Keys <= enter + state.Keys && Edge(graph, node, k)
      modifies this
      ensures !ok ==> HasCycle(graph)
      ensures ok ==> Consistent(path + [node]) && k in order && graph.Keys <= enter + state.Keys
      ensures ok ==> old(state).Keys <= state.Keys && enter <= old(enter)
      ensures ok ==> forall p :: p in old(order) ==> p in order
      decreases Packages(graph) - state.Keys, 1
    {
      hide Ordered, IsPath, HasCycle, NoRepeats, Packages, Consistent;
      ghost var now := path + [node];
      Facts(now);
      if k in state {
        Colors(now, k);
        if state[k] == Gray {
          CycleFound(graph, now, k);
          return false;
        }
        return true;
      }
      Discard(k, now);
      ExtendPath(graph, now, k);
      DependencyIsPackage(graph, node, k);
      ok := Dfs(k, now);
    }
  }

  lemma DependencyIsPackage(g: Graph, p: Package, d: Package)
    requires Edge(g, p, d)
    ensures d in Packages(g)
  {
  }

  lemma ExtendPath(g: Graph, path: seq<Package>, k: Package)
    requires path != [] && IsPath(g, path) && Edge(g, path[|path| - 1], k)
    ensures IsPath(g, path + [k])
  {
  }

  /** A dependency that is still gray closes a cycle. */
  lemma CycleFound(g: Graph, path: seq<Package>, k: Package)
    requires path != [] && IsPath(g, path) && Edge(g, path[|path| - 1], k) && k in path
    ensures HasCycle(g)
  {
    var i :| 0 <= i < |path| && path[i] == k;
    var loop := path[i..] + [k];
    ExtendPath(g, path, k);
    assert forall m :: 0 <= m < |loop| ==> loop[m] == (path + [k])[i + m];
    assert IsPath(g, loop) by {
      forall m | 0 <= m < |loop| - 1 ensures Edge(g, loop[m], loop[m + 1]) {
        assert Edge(g, (path + [k])[i + m], (path + [k])[i + m + 1]);
      }
    }
    assert DependsOn(g, k, k);
  }

  // ---------------------------------------------------------------------------
  // The order and the targets
  // ---------------------------------------------------------------------------

  ghost predicate IsTopological(g: Graph, order: seq<Package>) {
    && Ordered(g, order) && NoRepeats(order)
    && (forall p :: p in order <==> p in Packages(g))
  }

  /** topological: fails exactly when there is a cycle, and otherwise lists every package
      once, before its dependencies. */
  method Sort(g: Graph) returns (ok: bool, order: seq<Package>)
    ensures ok <==> !HasCycle(g)
    ensures ok ==> IsTopological(g, order)
  {
    hide HasCycle, Ordered, IsPath, NoRepeats;
    var s := new Sorter(g);
    while s.enter != {}
      invariant s.graph == g && fresh(s)
      invariant s.Consistent([]) && g.Keys <= s.enter + s.state.Keys
      decreases s.enter
    {
      var node :| node in s.enter;
      s.enter := s.enter - {node};
      SingletonPath(g, node);
      assert [] + [node] == [node];
      var done := s.Dfs(node, []);
      if !done {
        return false, [];
      }
    }
    order := s.order;
    Complete(g, order) by {
      assert forall p :: p in g.Keys ==> p in s.state;
      assert forall p :: p in s.state ==> p in order;
    }
    OrderExcludesCycles(g, order);
    ok := true;
  }

  lemma SingletonPath(g: Graph, p: Package)
    ensures IsPath(g, [p])
  {
  }

  /** An order that has all keys has all their dependencies. */
  lemma Complete(g: Graph, order: seq<Package>)
    requires Ordered(g, order)
    requires forall p :: p in g.Keys ==> p in order
    ensures forall p :: p in Packages(g) ==> p in order
  {
    forall p | p in Packages(g) ensures p in order {
      if p !in g.Keys {
        var k :| k in g.Keys && p in g[k];
        var i :| 0 <= i < |order| && order[i] == k;
        assert Edge(g, order[i], p);
      }
    }
  }

  datatype Target = DirClean(package: Package) | Rebuild(package: Package)

  /** The targets printed: for every changed package that is not ignored, in reverse order,
      first the clean and then the build target. */
  function Targets(order: seq<Package>, changed: set<Package>, ignored: set<Package>): seq<Target> {
    if order == [] then []
    else Targets(order[1..], changed, ignored)
         + (if order[0] in changed && order[0] !in ignored then [DirClean(order[0]), Rebuild(order[0])] else [])
  }

  method PrintTargets(order: seq<Package>, changed: set<Package>, ignored: set<Package>) returns (printed: seq<Target>)
    ensures printed == Targets(order, changed, ignored)
  {
    printed := [];
    var i := |order|;
    while i > 0
      invariant 0 <= i <= |order|
      invariant printed == Targets(order[i..], changed, ignored)
    {
      i := i - 1;
      var p := order[i];
      assert order[i..][0] == p && order[i..][1..] == order[i + 1..];
      if p in changed {
        if p in ignored {
          continue;
        }
        printed := printed + [DirClean(p)];
        printed := printed + [Rebuild(p)];
      }
    }
    assert order[0..] == order;
  }

  lemma {:induction false} TargetsAreSelected(order: seq<Package>, changed: set<Package>, ignored: set<Package>, p: Package)
    ensures Rebuild(p) in Targets(order, changed, ignored) <==> p in order && p in changed && p !in ignored
    ensures DirClean(p) in Targets(order, changed, ignored) <==> p in order && p in changed && p !in ignored
  {
    if order != [] {
      TargetsAreSelected(order[1..], changed, ignored, p);
    }
  }

  /** No target is printed twice. */
  lemma {:induction false} TargetsOnce(order: seq<Package>, changed: set<Package>, ignored: set<Package>)
    requires NoRepeats(order)
    ensures var t := Targets(order, changed, ignored); forall m, n :: 0 <= m < n < |t| ==> t[m] != t[n]
  {
    if order != [] {
      var front := Targets(order[1..], changed, ignored);
      TargetsOnce(order[1..], changed, ignored);
      TargetsAreSelected(order[1..], changed, ignored, order[0]);
      assert order[0] !in order[1..];
      assert forall m :: 0 <= m < |front| ==> front[m] in front;
    }
  }

  /** t is printed at position m and u, later, at position n. */
  ghost predicate PrintedBefore(targets: seq<Target>, t: Target, u: Target) {
    forall m, n :: 0 <= m < |targets| && 0 <= n < |targets| && targets[m] == t && targets[n] == u ==> m < n
  }

  /** Every clean target is directly followed by the build target of its package, and no build target
      stands without its clean target before it. */
  lemma {:induction false} RebuildFollowsClean(order: seq<Package>, changed: set<Package>, ignored: set<Package>, m: nat)
    requires m < |Targets(order, changed, ignored)|
    ensures var t := Targets(order, changed, ignored);
            match t[m]
            case DirClean(p) => m + 1 < |t| && t[m + 1] == Rebuild(p)
            case Rebuild(p) => m > 0 && t[m - 1] == DirClean(p)
  {
    if m < |Targets(order[1..], changed, ignored)| {
      RebuildFollowsClean(order[1..], changed, ignored, m);
    }
  }

  /** So a package is cleaned before it is rebuilt. */
  lemma CleanedFirst(order: seq<Package>, changed: set<Package>, ignored: set<Package>, p: Package)
    requires NoRepeats(order)
    ensures PrintedBefore(Targets(order, changed, ignored), DirClean(p), Rebuild(p))
  {
    hide Targets;
    var t := Targets(order, changed, ignored);
    TargetsOnce(order, changed, ignored);
    forall m, n | 0 <= m < |t| && 0 <= n < |t| && t[m] == DirClean(p) && t[n] == Rebuild(p) ensures m < n {
      RebuildFollowsClean(order, changed, ignored, m);
    }
  }

  lemma {:induction false} LaterPrintedFirst(order: seq<Package>, changed: set<Package>, ignored: set<Package>, i: nat, j: nat)
    requires NoRepeats(order) && i < j < |order|
    ensures PrintedBefore(Targets(order, changed, ignored), Rebuild(order[j]), DirClean(order[i]))
  {
    var rest := order[1..];
    var front := Targets(rest, changed, ignored);
    var all := Targets(order, changed, ignored);
    TargetsAreSelected(rest, changed, ignored, order[0]);
    if i == 0 {
      assert order[0] !in rest;
      assert forall n :: 0 <= n < |front| ==> all[n] == front[n] != DirClean(order[0]);
    } else {
      LaterPrintedFirst(rest, changed, ignored, i - 1, j - 1);
      TargetsAreSelected(rest, changed, ignored, order[i]);
    }
  }

  /** A changed package is cleaned and rebuilt only after every changed package it depends
      on, directly or not, has been rebuilt. */
  lemma DependenciesFirst(g: Graph, order: seq<Package>, changed: set<Package>, ignored: set<Package>,
                          a: Package, b: Package)
    requires IsTopological(g, order) && DependsOn(g, a, b)
    ensures PrintedBefore(Targets(order, changed, ignored), Rebuild(b), DirClean(a))
  {
    var path :| |path| >= 2 && path[0] == a && path[|path| - 1] == b && IsPath(g, path);
    assert Edge(g, path[0], path[1]);
    assert a in Packages(g);
    var i :| 0 <= i < |order| && order[i] == a;
    var j := PathsRunForward(g, order, path, i);
    LaterPrintedFirst(order, changed, ignored, i, j);
  }
}
