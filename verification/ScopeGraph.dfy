/**
  The scope import graph: what is visible from a scope, whether imports form a
  cycle, and which scopes are generation targets.
 */
module ScopeGraph {
  import opened KeyOrder
  import opened Wrappers

  type Graph = map<string, seq<string>>

  function Imports(g: Graph, scope: string): seq<string> {
    if scope in g then g[scope] else []
  }

  function Elements(s: seq<string>): set<string> {
    set x | x in s
  }

  function Nodes(g: Graph): set<string> {
    g.Keys + set scope, import_ | scope in g && import_ in g[scope] :: import_
  }

  /* ---- walks ---- */

  predicate Edge(g: Graph, from: string, to: string) {
    to in Imports(g, from)
  }

  ghost predicate Walk(g: Graph, walk: seq<string>) {
    walk != [] && forall i :: 0 <= i < |walk| - 1 ==> Edge(g, walk[i], walk[i + 1])
  }

  ghost predicate WalkBetween(g: Graph, from: string, to: string, walk: seq<string>) {
    Walk(g, walk) && walk[0] == from && walk[|walk| - 1] == to
  }

  ghost predicate Reaches(g: Graph, from: string, to: string) {
    exists walk :: WalkBetween(g, from, to, walk)
  }

  predicate Distinct(s: seq<string>) {
    forall i, j :: 0 <= i < j < |s| ==> s[i] != s[j]
  }

  /** A closed walk along import edges, at least one edge long. */
  ghost predicate ClosedWalk(g: Graph, walk: seq<string>) {
    |walk| >= 2 && Walk(g, walk) && walk[0] == walk[|walk| - 1]
  }

  ghost predicate Acyclic(g: Graph) {
    forall walk :: !ClosedWalk(g, walk)
  }

  lemma ReachesSelf(g: Graph, scope: string)
    ensures Reaches(g, scope, scope)
  {
    assert WalkBetween(g, scope, scope, [scope]);
  }

  lemma ReachesThrough(g: Graph, from: string, via: string, to: string)
    requires Edge(g, from, via) && Reaches(g, via, to)
    ensures Reaches(g, from, to)
  {
    var walk :| WalkBetween(g, via, to, walk);
    assert WalkBetween(g, from, to, [from] + walk);
  }

  /** A set closed under imports keeps every walk that starts in it. */
  lemma {:induction false} ClosedKeepsWalk(g: Graph, closed: set<string>, walk: seq<string>)
    requires Walk(g, walk) && walk[0] in closed
    requires forall x :: x in closed ==> forall y :: y in Imports(g, x) ==> y in closed
    ensures walk[|walk| - 1] in closed
  {
    if |walk| > 1 {
      assert Edge(g, walk[0], walk[1]);
      assert Walk(g, walk[1..]) by {
        forall i | 0 <= i < |walk[1..]| - 1 ensures Edge(g, walk[1..][i], walk[1..][i + 1]) {
          assert Edge(g, walk[i + 1], walk[i + 1 + 1]);
        }
      }
      ClosedKeepsWalk(g, closed, walk[1..]);
    }
  }

  /* ---- visibility ---- */

  /** What a search may still discover. */
  function Undiscovered(g: Graph, pending: seq<string>, visible: seq<string>): set<string> {
    Nodes(g) + Elements(pending) - Elements(visible)
  }

  lemma DiscoveryShrinks(g: Graph, pending: seq<string>, pending': seq<string>, visible: seq<string>,
                         visible': seq<string>, scope: string)
    requires scope in pending && scope !in visible && scope in visible' && visible <= visible'
    requires forall x :: x in pending' ==> x in pending || x in Nodes(g)
    ensures Undiscovered(g, pending', visible') < Undiscovered(g, pending, visible)
  {
    assert forall x :: x in visible ==> x in visible';
    assert scope in Undiscovered(g, pending, visible) && scope !in Undiscovered(g, pending', visible');
  }

  /** Depth-first preorder of the pending scopes, in order, cutting scopes already visible. */
  function Preorder(g: Graph, pending: seq<string>, visible: seq<string>): (r: seq<string>)
    ensures visible <= r
    decreases Undiscovered(g, pending, visible), |pending|
  {
    if pending == [] then visible
    else
      var scope, rest := pending[0], pending[1..];
      if scope in visible then
        assert Undiscovered(g, rest, visible) <= Undiscovered(g, pending, visible);
        Preorder(g, rest, visible)
      else
        DiscoveryShrinks(g, pending, Imports(g, scope), visible, visible + [scope], scope);
        var inner := Preorder(g, Imports(g, scope), visible + [scope]);
        DiscoveryShrinks(g, pending, rest, visible, inner, scope);
        Preorder(g, rest, inner)
  }

  /** A search lists each scope once, and every pending one. */
  lemma {:induction false} PreorderLists(g: Graph, pending: seq<string>, visible: seq<string>)
    requires Distinct(visible)
    ensures Distinct(Preorder(g, pending, visible)) && forall p :: p in pending ==> p in Preorder(g, pending, visible)
    decreases Undiscovered(g, pending, visible), |pending|
  {
    if pending != [] {
      var scope, rest := pending[0], pending[1..];
      if scope in visible {
        assert Undiscovered(g, rest, visible) <= Undiscovered(g, pending, visible);
        PreorderLists(g, rest, visible);
      } else {
        DiscoveryShrinks(g, pending, Imports(g, scope), visible, visible + [scope], scope);
        var inner := Preorder(g, Imports(g, scope), visible + [scope]);
        DiscoveryShrinks(g, pending, rest, visible, inner, scope);
        PreorderLists(g, Imports(g, scope), visible + [scope]);
        PreorderLists(g, rest, inner);
        assert scope in inner;
      }
      assert forall p :: p in pending ==> p == scope || p in rest;
    }
  }

  /** Whatever a search adds, its imports are listed. */
  lemma {:induction false} PreorderCloses(g: Graph, pending: seq<string>, visible: seq<string>, x: string, y: string)
    requires Distinct(visible) && x in Preorder(g, pending, visible) && x !in visible && Edge(g, x, y)
    ensures y in Preorder(g, pending, visible)
    decreases Undiscovered(g, pending, visible), |pending|
  {
    var scope, rest := pending[0], pending[1..];
    if scope in visible {
      assert Undiscovered(g, rest, visible) <= Undiscovered(g, pending, visible);
      PreorderCloses(g, rest, visible, x, y);
    } else {
      DiscoveryShrinks(g, pending, Imports(g, scope), visible, visible + [scope], scope);
      var inner := Preorder(g, Imports(g, scope), visible + [scope]);
      DiscoveryShrinks(g, pending, rest, visible, inner, scope);
      PreorderLists(g, Imports(g, scope), visible + [scope]);
      if x == scope {
        assert y in inner;
      } else if x in inner {
        PreorderCloses(g, Imports(g, scope), visible + [scope], x, y);
      } else {
        PreorderCloses(g, rest, inner, x, y);
      }
    }
  }

  /** Whatever a search adds is reached from a pending scope. */
  lemma {:induction false} PreorderReaches(g: Graph, pending: seq<string>, visible: seq<string>, x: string)
    returns (from: string)
    requires x in Preorder(g, pending, visible) && x !in visible
    ensures from in pending && Reaches(g, from, x)
    decreases Undiscovered(g, pending, visible), |pending|
  {
    var scope, rest := pending[0], pending[1..];
    if scope in visible {
      assert Undiscovered(g, rest, visible) <= Undiscovered(g, pending, visible);
      from := PreorderReaches(g, rest, visible, x);
    } else {
      DiscoveryShrinks(g, pending, Imports(g, scope), visible, visible + [scope], scope);
      var inner := Preorder(g, Imports(g, scope), visible + [scope]);
      DiscoveryShrinks(g, pending, rest, visible, inner, scope);
      if x == scope {
        ReachesSelf(g, scope);
        from := scope;
      } else if x in inner {
        var via := PreorderReaches(g, Imports(g, scope), visible + [scope], x);
        ReachesThrough(g, scope, via, x);
        from := scope;
      } else {
        from := PreorderReaches(g, rest, inner, x);
      }
    }
  }

  function VisibleFrom(g: Graph, scope: string): seq<string> {
    Preorder(g, [scope], [])
  }

  /** Visibility is reachability: exactly the reachable scopes, each once, the start first. */
  lemma VisibleIsReachable(g: Graph, scope: string)
    ensures var visible := VisibleFrom(g, scope);
            && visible != [] && visible[0] == scope && Distinct(visible)
            && forall x :: x in visible <==> Reaches(g, scope, x)
  {
    var visible := VisibleFrom(g, scope);
    PreorderLists(g, [scope], []);
    forall x | x in visible ensures Reaches(g, scope, x) {
      var from := PreorderReaches(g, [scope], [], x);
    }
    forall x | Reaches(g, scope, x) ensures x in visible {
      var walk :| WalkBetween(g, scope, x, walk);
      forall u, v | u in Elements(visible) && v in Imports(g, u) ensures v in Elements(visible) {
        PreorderCloses(g, [scope], [], u, v);
      }
      ClosedKeepsWalk(g, Elements(visible), walk);
    }
    assert [] + [scope] == [scope];
    DiscoveryShrinks(g, [scope], Imports(g, scope), [], [scope], scope);
    assert [scope] <= visible;
  }

  lemma PreorderStart(g: Graph, scope: string, visible: seq<string>)
    ensures Preorder(g, [scope], visible) ==
              if scope in visible then visible else Preorder(g, Imports(g, scope), visible + [scope])
  {
    assert [scope][1..] == [];
    if scope !in visible {
      DiscoveryShrinks(g, [scope], Imports(g, scope), visible, visible + [scope], scope);
    }
  }

  lemma PreorderNext(g: Graph, pending: seq<string>, i: nat, visible: seq<string>)
    requires i < |pending|
    ensures Preorder(g, pending[i..], visible) == Preorder(g, pending[i + 1..], Preorder(g, [pending[i]], visible))
  {
    assert pending[i..][1..] == pending[i + 1..];
    PreorderStart(g, pending[i], visible);
  }

  /** The search as it runs: one set of seen scopes and one growing list. */
  class VisibilitySearch {
    const graph: Graph
    var seen: set<string>
    var visible: seq<string>

    constructor (graph: Graph)
      ensures this.graph == graph && seen == {} && visible == []
    {
      this.graph, seen, visible := graph, {}, [];
    }

    ghost predicate Valid()
      reads this
    {
      seen == Elements(visible)
    }

    method Collect(scope: string)
      requires Valid()
      modifies this
      ensures Valid() && visible == Preorder(graph, [scope], old(visible))
      decreases Undiscovered(graph, [scope], visible)
    {
      PreorderStart(graph, scope, visible);
      if scope in seen {
        return;
      }
      DiscoveryShrinks(graph, [scope], Imports(graph, scope), visible, visible + [scope], scope);
      seen, visible := seen + {scope}, visible + [scope];
      ghost var before := visible;
      var imports := Imports(graph, scope);
      for i := 0 to |imports|
        invariant Valid() && before <= visible
        invariant Preorder(graph, imports[i..], visible) == Preorder(graph, imports, before)
      {
        PreorderNext(graph, imports, i, visible);
        DiscoveryShrinks(graph, [scope], [imports[i]], old(visible), visible, scope);
        Collect(imports[i]);
      }
    }
  }

  /* ---- cycles ---- */

  datatype VisitState = Visiting | Visited

  /** A closed walk that repeats no scope before it closes. */
  ghost predicate SimpleCycle(g: Graph, cycle: seq<string>) {
    ClosedWalk(g, cycle) && Distinct(cycle[..|cycle| - 1])
  }

  /** Every scope comes after everything it imports. */
  predicate ImportsFirst(g: Graph, order: seq<string>) {
    forall i, y :: 0 <= i < |order| && y in Imports(g, order[i]) ==> y in order[..i]
  }

  /** Along a walk the position in an imports-first order falls at every edge. */
  lemma {:induction false} WalkDescends(g: Graph, order: seq<string>, walk: seq<string>, a: nat) returns (b: nat)
    requires ImportsFirst(g, order) && Walk(g, walk) && a < |order| && order[a] == walk[0]
    ensures b + |walk| <= a + 1 && order[b] == walk[|walk| - 1]
  {
    var n := |walk| - 1;
    if n == 0 {
      b := a;
    } else {
      assert Walk(g, walk[..n]) by {
        forall i | 0 <= i < n - 1 ensures Edge(g, walk[..n][i], walk[..n][i + 1]) {
          assert Edge(g, walk[i], walk[i + 1]);
        }
      }
      var c := WalkDescends(g, order, walk[..n], a);
      assert Edge(g, walk[n - 1], walk[n - 1 + 1]);
      b :| 0 <= b < c && order[..c][b] == walk[n];
    }
  }

  lemma OrderedIsAcyclic(g: Graph, order: seq<string>)
    requires ImportsFirst(g, order) && Distinct(order) && forall scope :: scope in g ==> scope in order
    ensures Acyclic(g)
  {
    forall walk | ClosedWalk(g, walk) ensures false {
      assert Edge(g, walk[0], walk[0 + 1]);
      var a :| 0 <= a < |order| && order[a] == walk[0];
      var b := WalkDescends(g, order, walk, a);
    }
  }

  lemma FinishExtends(g: Graph, order: seq<string>, scope: string)
    requires ImportsFirst(g, order) && Distinct(order) && scope !in order && forall y :: y in Imports(g, scope) ==>
               y in order
    ensures ImportsFirst(g, order + [scope]) && Distinct(order + [scope])
  {
    forall i, y | 0 <= i < |order + [scope]| && y in Imports(g, (order + [scope])[i])
      ensures y in (order + [scope])[..i]
    {
      if i < |order| {
        assert y in order[..i];
      }
      assert (order + [scope])[..i] == order[..i];
    }
  }

  lemma CycleRefutes(g: Graph, cycle: seq<string>)
    requires SimpleCycle(g, cycle)
    ensures !Acyclic(g)
  {
  }

  /** Three-colour depth-first search: unvisited, on the stack, finished. */
  class CycleSearch {
    const graph: Graph
    var states: map<string, VisitState>
    var stack: seq<string>
    ghost var finished: seq<string>

    constructor (graph: Graph)
      ensures this.graph == graph && Valid() && stack == [] && finished == []
    {
      this.graph, states, stack, finished := graph, map[], [], [];
    }

    /** Visiting exactly on the stack, which is a walk; finished scopes come after their imports. */
    ghost predicate Valid()
      reads this
    {
      && Distinct(stack) && Distinct(finished)
      && (forall s :: s in stack <==> s in states && states[s].Visiting?)
      && (forall s :: s in finished <==> s in states && states[s].Visited?)
      && (stack != [] ==> Walk(graph, stack))
      && ImportsFirst(graph, finished)
    }

    method Visit(scope: string) returns (cycle: Option<seq<string>>)
      requires Valid() && scope in Nodes(graph) && (stack != [] ==> Edge(graph, stack[|stack| - 1], scope))
      modifies this
      ensures Valid()
      ensures cycle.None? ==>
                stack == old(stack) && old(finished) <= finished && scope in finished && old(states).Keys <= states.Keys
      ensures cycle.Some? ==> SimpleCycle(graph, cycle.value)
      decreases Nodes(graph) - states.Keys, 0
    {
      if scope in states {
        if states[scope].Visited? {
          return None;
        }
        var start := Position(stack, scope);
        CloseCycle(graph, stack, start, scope);
        return Some(stack[start..] + [scope]);
      }
      Enter(scope);
      cycle := VisitImports(scope);
      if cycle.None? {
        Leave(scope);
      }
    }

    /** The imports of the scope on top of the stack, in declaration order. */
    method VisitImports(scope: string) returns (cycle: Option<seq<string>>)
      requires Valid() && stack != [] && stack[|stack| - 1] == scope
      modifies this
      ensures Valid()
      ensures cycle.None? ==> stack == old(stack) && old(finished) <= finished && old(states).Keys <= states.Keys
      ensures cycle.None? ==> forall y :: y in Imports(graph, scope) ==> y in finished
      ensures cycle.Some? ==> SimpleCycle(graph, cycle.value)
      decreases Nodes(graph) - states.Keys, 1
    {
      var imports := Imports(graph, scope);
      for i := 0 to |imports|
        invariant Valid() && stack == old(stack) && old(finished) <= finished && old(states).Keys <= states.Keys
        invariant forall y :: y in imports[..i] ==> y in finished
      {
        assert scope in graph && imports[i] in graph[scope];
        var inner := Visit(imports[i]);
        if inner.Some? {
          return inner;
        }
        assert forall y :: y in imports[..i + 1] ==> y in imports[..i] || y == imports[i];
      }
      return None;
    }

    method Enter(scope: string)
      requires Valid() && scope !in states && (stack != [] ==> Edge(graph, stack[|stack| - 1], scope))
      modifies `states, `stack
      ensures Valid() && stack == old(stack) + [scope] && states.Keys == old(states).Keys + {scope}
    {
      states, stack := states[scope := Visiting], stack + [scope];
    }

    method Leave(scope: string)
      requires Valid() && stack != [] && stack[|stack| - 1] == scope && forall y :: y in Imports(graph, scope) ==>
                 y in finished
      modifies this
      ensures Valid() && stack == old(stack)[..|old(stack)| - 1] && finished == old(finished) + [scope]
              && states.Keys == old(states).Keys
    {
      FinishExtends(graph, finished, scope);
      stack, states, finished := stack[..|stack| - 1], states[scope := Visited], finished + [scope];
      assert stack + [scope] == old(stack);
    }

    /** The first cycle found, going through the roots in lexical order; none exactly when the graph is acyclic. */
    method ImportCycle() returns (cycle: Option<seq<string>>)
      requires Valid() && stack == [] && finished == []
      modifies this
      ensures cycle.None? <==> Acyclic(graph)
      ensures cycle.Some? ==> SimpleCycle(graph, cycle.value)
    {
      var roots := Sorted(Native, graph.Keys);
      for i := 0 to |roots|
        invariant Valid() && stack == [] && forall root :: root in roots[..i] ==> root in finished
      {
        var found := Visit(roots[i]);
        if found.Some? {
          CycleRefutes(graph, found.value);
          return found;
        }
        assert forall root :: root in roots[..i + 1] ==> root in roots[..i] || root == roots[i];
      }
      OrderedIsAcyclic(graph, finished);
      return None;
    }
  }

  function Position(s: seq<string>, x: string): (i: nat)
    requires x in s
    ensures i < |s| && s[i] == x
  {
    if s[0] == x then 0 else 1 + Position(s[1..], x)
  }

  lemma CloseCycle(g: Graph, stack: seq<string>, start: nat, scope: string)
    requires start < |stack| && Walk(g, stack) && Distinct(stack) && stack[start] == scope
             && Edge(g, stack[|stack| - 1], scope)
    ensures SimpleCycle(g, stack[start..] + [scope])
  {
    var cycle := stack[start..] + [scope];
    forall i | 0 <= i < |cycle| - 1 ensures Edge(g, cycle[i], cycle[i + 1]) {
      if i + 1 < |stack| - start {
        assert Edge(g, stack[start + i], stack[start + i + 1]);
      }
    }
    assert cycle[..|cycle| - 1] == stack[start..];
  }

  /* ---- generation targets ---- */

  /** A configured scope that no configured scope imports. */
  predicate IsGenerationTarget(g: Graph, scope: string) {
    scope in g && forall importer :: importer in g ==> scope !in g[importer]
  }

  lemma WalkRepeatsNothing(g: Graph, walk: seq<string>)
    requires Acyclic(g) && Walk(g, walk)
    ensures Distinct(walk)
  {
    forall i, j | 0 <= i < j < |walk| ensures walk[i] != walk[j] {
      var part := walk[i..j + 1];
      forall k | 0 <= k < |part| - 1 ensures Edge(g, part[k], part[k + 1]) {
        assert Edge(g, walk[i + k], walk[i + k + 1]);
      }
      assert Walk(g, part) && !ClosedWalk(g, part);
    }
  }

  lemma {:induction false} DistinctFits(s: seq<string>, bound: set<string>)
    requires Distinct(s) && forall x :: x in s ==> x in bound
    ensures |s| <= |bound|
  {
    if s != [] {
      DistinctFits(s[1..], bound - {s[0]});
    }
  }

  /** Going back along imports from any configured scope of an acyclic graph ends at a generation target. */
  lemma {:induction false} TargetSeesScope(g: Graph, walk: seq<string>, scope: string) returns (target: string)
    requires Acyclic(g) && Walk(g, walk) && walk[|walk| - 1] == scope && forall x :: x in walk ==> x in g
    ensures IsGenerationTarget(g, target) && Reaches(g, target, scope)
    decreases |g| - |walk|
  {
    if IsGenerationTarget(g, walk[0]) {
      target := walk[0];
      assert WalkBetween(g, target, scope, walk);
    } else {
      var importer :| importer in g && walk[0] in g[importer];
      var longer := [importer] + walk;
      forall i | 0 <= i < |longer| - 1 ensures Edge(g, longer[i], longer[i + 1]) {
        if i > 0 {
          assert Edge(g, walk[i - 1], walk[i - 1 + 1]);
        }
      }
      WalkRepeatsNothing(g, longer);
      DistinctFits(longer, g.Keys);
      target := TargetSeesScope(g, longer, scope);
    }
  }

  datatype Artifact = Artifact(id: string, scope: string)

  datatype Group = Group(name: string, target: bool, members: set<string>)

  /** The graph a snapshot groups by: the configured one, or every artifact's scope on its own. */
  function GroupingGraph(imports: Graph, artifacts: set<Artifact>): Option<Graph> {
    if imports == map[] then Some(map artifact | artifact in artifacts :: artifact.scope := [])
    else if exists artifact :: artifact in artifacts && artifact.scope !in imports then None
    else Some(imports)
  }

  function GroupOf(g: Graph, name: string, artifacts: set<Artifact>): Group {
    Group(name, IsGenerationTarget(g, name), set artifact | artifact in artifacts
          && artifact.scope in VisibleFrom(g, name) :: artifact.id)
  }

  /** In an acyclic graph no artifact is lost: each is a member of some generation target's group. */
  lemma ArtifactReachesTarget(imports: Graph, artifacts: set<Artifact>, artifact: Artifact) returns (name: string)
    requires Acyclic(imports) && artifact in artifacts && GroupingGraph(imports, artifacts).Some?
    ensures var g := GroupingGraph(imports, artifacts).value;
            name in g && GroupOf(g, name, artifacts).target && artifact.id in GroupOf(g, name, artifacts).members
  {
    var g := GroupingGraph(imports, artifacts).value;
    if imports == map[] {
      forall walk ensures !ClosedWalk(g, walk) {
        assert |walk| >= 2 ==> !Edge(g, walk[0], walk[0 + 1]);
      }
    }
    name := TargetSeesScope(g, [artifact.scope], artifact.scope);
    VisibleIsReachable(g, name);
  }
}
