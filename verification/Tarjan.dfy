/**
 Tarjan's algorithm with an explicit frame stack: the state of the search, what holds of it at every step, and
 why closing a component at a node whose low link is its own index closes exactly a strongly connected component.
 */
module Tarjan {
  import opened Grammars
  import opened SchemaGrammars

  type Graph = seq<seq<nat>>

  datatype Frame = Frame(node: nat, edge: nat)

  datatype Search = Search(
    nextIndex: nat, indices: seq<Option<nat>>, lowlink: seq<nat>, onStack: seq<bool>, stack: seq<nat>,
    frames: seq<Frame>, components: seq<seq<nat>>)

  // The adjacency lists of the dependency graph.
  ghost predicate GraphFor(g: Grammar, graph: Graph) {
    && |graph| == g.nonterminals
    && (forall a: nat, b: nat {:trigger b in graph[a]} :: a < |graph| ==> (b in graph[a] <==> DependsOn(g, a, b)))
    && (forall a: nat, k: nat {:trigger graph[a][k]} :: a < |graph| && k < |graph[a]| ==> graph[a][k] < |graph|)
  }

  // ---------- The invariant, part by part ----------

  predicate Sized(n: nat, st: Search) {
    |st.indices| == |st.lowlink| == |st.onStack| == n
  }

  predicate Visited(st: Search, x: nat) {
    x < |st.indices| && st.indices[x].Some?
  }

  predicate Stacked(st: Search, x: nat) {
    x < |st.onStack| && st.onStack[x]
  }

  // Visited and no longer on the stack: its component is closed.
  predicate Closed(st: Search, x: nat) {
    Visited(st, x) && !Stacked(st, x)
  }

  function Index(st: Search, x: nat): nat
    requires Visited(st, x)
  {
    st.indices[x].value
  }

  // The stack holds exactly the stacked nodes, by ascending index, all visited.
  ghost predicate StackOrdered(st: Search) {
    && (forall x: nat :: Stacked(st, x) <==> x in st.stack)
    && (forall x <- st.stack :: Visited(st, x))
    && (forall i, j :: 0 <= i < j < |st.stack| ==> Index(st, st.stack[i]) < Index(st, st.stack[j]))
    && (forall x: nat :: Visited(st, x) ==> Index(st, x) < st.nextIndex)
  }

  // The frames are open nodes on the stack, by ascending index.
  ghost predicate FramesOrdered(graph: Graph, st: Search) {
    && (forall f <- st.frames ::
          Stacked(st, f.node) && Visited(st, f.node) && f.node < |graph| && f.edge <= |graph[f.node]|)
    && (forall i, j :: 0 <= i < j < |st.frames| ==> Index(st, st.frames[i].node) < Index(st, st.frames[j].node))
  }

  ghost predicate Open(st: Search, x: nat) {
    exists i :: 0 <= i < |st.frames| && st.frames[i].node == x
  }

  // Edge number `k` of `x` has been looked at.
  ghost predicate Seen(st: Search, x: nat, k: nat) {
    forall i :: 0 <= i < |st.frames| && st.frames[i].node == x ==> k < st.frames[i].edge
  }

  // Every edge looked at leads to a visited node, from a closed node to a closed one.
  ghost predicate EdgesSeen(graph: Graph, st: Search) {
    && (forall x: nat, k: nat {:trigger graph[x][k]} ::
          x < |graph| && k < |graph[x]| && Stacked(st, x) && Seen(st, x, k) ==> Visited(st, graph[x][k]))
    && (forall x: nat, k: nat {:trigger graph[x][k]} :: x < |graph| && k < |graph[x]| && Closed(st, x) ==>
          Closed(st, graph[x][k]))
  }

  // Open nodes reach everything above them on the stack.
  ghost predicate OpenReach(g: Grammar, st: Search) {
    forall x: nat, y: nat {:trigger Open(st, x), Stacked(st, y)} ::
      Open(st, x) && Stacked(st, y) && Visited(st, x) && Visited(st, y) && Index(st, x) <= Index(st, y) ==>
        Reaches(g, x, y)
  }

  // Everything on the stack reaches an open node below it.
  ghost predicate ReachOpen(g: Grammar, st: Search) {
    forall y: nat :: Stacked(st, y) && Visited(st, y) ==> ReachesOpen(g, st, y)
  }

  ghost predicate ReachesOpen(g: Grammar, st: Search, y: nat)
    requires Visited(st, y)
  {
    exists x: nat :: Open(st, x) && Visited(st, x) && Index(st, x) <= Index(st, y) && Reaches(g, y, x)
  }

  // A low link is the index of a stacked node the node reaches.
  ghost predicate LowWitnessed(g: Grammar, st: Search) {
    forall x: nat :: Stacked(st, x) && Visited(st, x) && x < |st.lowlink| ==> LowFrom(g, st, x)
  }

  ghost predicate LowFrom(g: Grammar, st: Search, x: nat)
    requires Visited(st, x) && x < |st.lowlink|
  {
    st.lowlink[x] <= Index(st, x)
      && exists y: nat :: Stacked(st, y) && Visited(st, y) && Index(st, y) == st.lowlink[x] && Reaches(g, x, y)
  }

  // `z` is above open node number `i` and below the next one.
  ghost predicate InRegion(st: Search, i: nat, z: nat)
    requires i < |st.frames|
  {
    && Stacked(st, z) && Visited(st, z) && Visited(st, st.frames[i].node)
       && Index(st, st.frames[i].node) <= Index(st, z)
    && (i + 1 < |st.frames| ==> Visited(st, st.frames[i + 1].node) && Index(st, z) < Index(st, st.frames[i + 1].node))
  }

  // The low link of an open node bounds every stacked target seen from its region.
  ghost predicate LowBounds(graph: Graph, st: Search) {
    forall i: nat, z: nat, k: nat {:trigger InRegion(st, i, z), graph[z][k]} ::
      i < |st.frames| && InRegion(st, i, z) && z < |graph| && k < |graph[z]| && Seen(st, z, k) ==>
        LowBound(graph, st, i, z, k)
  }

  ghost predicate LowBound(graph: Graph, st: Search, i: nat, z: nat, k: nat)
    requires i < |st.frames| && z < |graph| && k < |graph[z]|
  {
    var y := graph[z][k];
    Stacked(st, y) && Visited(st, y) && st.frames[i].node < |st.lowlink| ==>
      st.lowlink[st.frames[i].node] <= Index(st, y)
  }

  // The closed components: the closed nodes, each set strongly connected and maximal.
  ghost predicate ComponentsExact(g: Grammar, st: Search) {
    && (forall x: nat :: Closed(st, x) <==> exists c :: 0 <= c < |st.components| && x in st.components[c])
    && (forall c: nat :: c < |st.components| ==> IsScc(g, st.components[c]))
    && (forall c, d :: 0 <= c < d < |st.components| ==> forall x :: x in st.components[c] ==> x !in st.components[d])
  }

  ghost predicate IsScc(g: Grammar, members: seq<nat>) {
    && members != []
    && (forall i, j :: 0 <= i < j < |members| ==> members[i] < members[j])
    && (forall x <- members :: x < g.nonterminals)
    && (forall x: nat, y: nat {:trigger Reaches(g, x, y)} :: x in members && y < g.nonterminals ==>
          (y in members <==> Reaches(g, x, y) && Reaches(g, y, x)))
  }

  ghost predicate Invariant(g: Grammar, graph: Graph, st: Search) {
    && InRange(g) && GraphFor(g, graph) && Sized(|graph|, st)
    && StackOrdered(st) && FramesOrdered(graph, st) && EdgesSeen(graph, st)
    && OpenReach(g, st) && ReachOpen(g, st) && LowWitnessed(g, st) && LowBounds(graph, st)
    && ComponentsExact(g, st)
  }

  // ---------- Consequences ----------

  // A closed node reaches closed nodes only.
  lemma {:induction false} ClosedReaches(g: Grammar, graph: Graph, st: Search, path: seq<nat>)
    requires GraphFor(g, graph) && Sized(|graph|, st) && EdgesSeen(graph, st)
    requires PathFor(g, path) && Closed(st, path[0])
    ensures Closed(st, path[|path| - 1])
    decreases |path|
  {
    if |path| > 1 {
      var front := path[..|path| - 1];
      ClosedReaches(g, graph, st, front);
      var x, y := front[|front| - 1], path[|path| - 1];
      assert DependsOn(g, x, y);
      assert y in graph[x];
      var k: nat :| k < |graph[x]| && graph[x][k] == y;
    }
  }

  // Above a node whose low link is its own index, edges stay above it or lead to closed nodes.
  ghost predicate Above(st: Search, top: nat, z: nat)
    requires Visited(st, top)
  {
    Stacked(st, z) && Visited(st, z) && Index(st, top) <= Index(st, z)
  }

  // The top frame has looked at all its edges and its node keeps its own index as low link.
  ghost predicate Closing(graph: Graph, st: Search) {
    && st.frames != []
    && var f := st.frames[|st.frames| - 1];
       f.node < |graph| && f.edge == |graph[f.node]| && f.node < |st.lowlink| && Visited(st, f.node)
         && st.lowlink[f.node] == Index(st, f.node)
  }

  lemma AboveStep(g: Grammar, graph: Graph, st: Search, z: nat, y: nat)
    requires Invariant(g, graph, st) && Closing(graph, st) && Above(st, st.frames[|st.frames| - 1].node, z)
    requires DependsOn(g, z, y)
    ensures Closed(st, y) || Above(st, st.frames[|st.frames| - 1].node, y)
  {
    hide Reaches, ReachesOpen, LowFrom, ComponentsExact, OpenReach, ReachOpen, LowWitnessed, InRange, DependsOn;
    var i := |st.frames| - 1;
    var top := st.frames[i].node;
    assert y in graph[z];
    var k: nat :| k < |graph[z]| && graph[z][k] == y;
    assert InRegion(st, i, z);
    SeenAbove(graph, st, z, k);
    assert LowBound(graph, st, i, z, k);
  }

  // Only the top frame is open above itself, and it has seen everything.
  lemma SeenAbove(graph: Graph, st: Search, z: nat, k: nat)
    requires FramesOrdered(graph, st) && Closing(graph, st) && Above(st, st.frames[|st.frames| - 1].node, z)
    requires z < |graph| && k < |graph[z]|
    ensures Seen(st, z, k)
  {
    var top := |st.frames| - 1;
    forall i | 0 <= i < |st.frames| && st.frames[i].node == z ensures k < st.frames[i].edge {
      FrameBelowTop(graph, st, i);
    }
  }

  lemma FrameBelowTop(graph: Graph, st: Search, i: nat)
    requires FramesOrdered(graph, st) && i < |st.frames|
    ensures var top := |st.frames| - 1;
            && Visited(st, st.frames[i].node) && Visited(st, st.frames[top].node)
            && (i < top ==> Index(st, st.frames[i].node) < Index(st, st.frames[top].node))
  {
    assert st.frames[i] in st.frames && st.frames[|st.frames| - 1] in st.frames;
  }

  lemma {:induction false} AboveReaches(g: Grammar, graph: Graph, st: Search, path: seq<nat>)
    requires Invariant(g, graph, st) && Closing(graph, st) && PathFor(g, path)
    requires Above(st, st.frames[|st.frames| - 1].node, path[0])
    ensures Closed(st, path[|path| - 1]) || Above(st, st.frames[|st.frames| - 1].node, path[|path| - 1])
    decreases |path|
  {
    hide Invariant, Closing;
    if |path| > 1 {
      var front := path[..|path| - 1];
      assert Visited(st, st.frames[|st.frames| - 1].node) by { ClosingVisited(graph, st); }
      AboveReaches(g, graph, st, front);
      var x, y := front[|front| - 1], path[|path| - 1];
      assert DependsOn(g, x, y);
      if Closed(st, x) {
        InvariantParts(g, graph, st);
        ClosedReaches(g, graph, st, [x, y]);
      } else {
        AboveStep(g, graph, st, x, y);
      }
    }
  }

  lemma ClosingVisited(graph: Graph, st: Search)
    requires Closing(graph, st)
    ensures st.frames != [] && Visited(st, st.frames[|st.frames| - 1].node)
  {
  }

  lemma InvariantParts(g: Grammar, graph: Graph, st: Search)
    requires Invariant(g, graph, st)
    ensures GraphFor(g, graph) && Sized(|graph|, st) && EdgesSeen(graph, st) && StackOrdered(st)
    ensures FramesOrdered(graph, st)
  {
  }

  // ---------- Looking at an edge to a visited node ----------

  function Min(a: nat, b: nat): nat {
    if a <= b then a else b
  }

  function Advanced(frames: seq<Frame>): seq<Frame>
    requires frames != []
  {
    frames[|frames| - 1 := frames[|frames| - 1].(edge := frames[|frames| - 1].edge + 1)]
  }

  // The next edge of the top frame leads to `target`.
  predicate NextEdge(graph: Graph, st: Search, target: nat) {
    st.frames != [] && var f := st.frames[|st.frames| - 1];
    f.node < |graph| && f.edge < |graph[f.node]| && graph[f.node][f.edge] == target
  }

  function LookAt(st: Search, target: nat): Search
    requires st.frames != [] && Visited(st, target) && st.frames[|st.frames| - 1].node < |st.lowlink|
  {
    var node := st.frames[|st.frames| - 1].node;
    var low := if Stacked(st, target) then Min(st.lowlink[node], Index(st, target)) else st.lowlink[node];
    st.(frames := Advanced(st.frames), lowlink := st.lowlink[node := low])
  }

  lemma AdvancedNodes(frames: seq<Frame>)
    requires frames != []
    ensures |Advanced(frames)| == |frames|
    ensures forall i :: 0 <= i < |frames| ==> Advanced(frames)[i].node == frames[i].node
    ensures forall i :: 0 <= i < |frames| - 1 ==> Advanced(frames)[i] == frames[i]
  {
  }

  // What is newly seen after the top frame advances is its next edge.
  lemma SeenAdvanced(graph: Graph, st: Search, st': Search, z: nat, k: nat)
    requires FramesOrdered(graph, st) && st.frames != [] && |st'.frames| >= |st.frames|
    requires st'.frames[..|st.frames|] == Advanced(st.frames) && Seen(st', z, k)
    ensures Seen(st, z, k) || (z == st.frames[|st.frames| - 1].node && k == st.frames[|st.frames| - 1].edge)
  {
    var top := |st.frames| - 1;
    if !Seen(st, z, k) {
      var i :| 0 <= i < |st.frames| && st.frames[i].node == z && k >= st.frames[i].edge;
      assert st'.frames[i] == Advanced(st.frames)[i];
    }
  }

  lemma TopRegion(graph: Graph, st: Search, i: nat)
    requires FramesOrdered(graph, st) && i < |st.frames|
    ensures InRegion(st, i, st.frames[|st.frames| - 1].node) ==> i == |st.frames| - 1
  {
    if i + 1 < |st.frames| {
      FrameBelowTop(graph, st, i + 1);
    }
  }

  // ---------- What carries over when the indices and the stack stay ----------

  ghost predicate SameStack(st: Search, st': Search) {
    st'.indices == st.indices && st'.onStack == st.onStack && st'.stack == st.stack && st'.nextIndex == st.nextIndex
    && st'.components == st.components
  }

  lemma StackKeeps(st: Search, st': Search)
    requires StackOrdered(st) && SameStack(st, st')
    ensures StackOrdered(st')
  {
    assert forall x: nat :: Stacked(st', x) == Stacked(st, x) && Visited(st', x) == Visited(st, x);
  }

  lemma OpenReachKeeps(g: Grammar, st: Search, st': Search)
    requires OpenReach(g, st) && SameStack(st, st') && forall x: nat :: Open(st', x) ==> Open(st, x)
    ensures OpenReach(g, st')
  {
    hide Reaches, Open;
    assert forall x: nat :: Stacked(st', x) == Stacked(st, x) && Visited(st', x) == Visited(st, x);
  }

  lemma ReachOpenKeeps(g: Grammar, st: Search, st': Search)
    requires ReachOpen(g, st) && SameStack(st, st') && forall x: nat :: Open(st, x) ==> Open(st', x)
    ensures ReachOpen(g, st')
  {
    hide Reaches, Open;
    forall y: nat | Stacked(st', y) && Visited(st', y) ensures ReachesOpen(g, st', y) {
      assert Stacked(st, y) && Visited(st, y);
      assert ReachesOpen(g, st, y);
      var x: nat :| Open(st, x) && Visited(st, x) && Index(st, x) <= Index(st, y) && Reaches(g, y, x);
      assert Open(st', x) && Visited(st', x) && Index(st', x) <= Index(st', y);
    }
  }

  lemma ComponentsKeep(g: Grammar, st: Search, st': Search)
    requires ComponentsExact(g, st) && SameStack(st, st')
    ensures ComponentsExact(g, st')
  {
    hide IsScc;
    assert forall x: nat :: Closed(st', x) == Closed(st, x);
  }

  lemma LowKeeps(g: Grammar, st: Search, st': Search, x: nat)
    requires SameStack(st, st') && Visited(st, x) && x < |st.lowlink| && x < |st'.lowlink|
    requires st'.lowlink[x] == st.lowlink[x]
    requires LowFrom(g, st, x)
    ensures LowFrom(g, st', x)
  {
    hide Reaches;
    var y: nat :| Stacked(st, y) && Visited(st, y) && Index(st, y) == st.lowlink[x] && Reaches(g, x, y);
    assert Stacked(st', y) && Visited(st', y) && Index(st', y) == st'.lowlink[x];
  }

  lemma FramesKeep(graph: Graph, st: Search, st': Search)
    requires FramesOrdered(graph, st) && SameStack(st, st') && |st'.frames| <= |st.frames|
    requires forall i :: 0 <= i < |st'.frames| ==> st'.frames[i].node == st.frames[i].node
    requires forall f <- st'.frames :: f.node < |graph| ==> f.edge <= |graph[f.node]|
    ensures FramesOrdered(graph, st')
  {
    forall f <- st'.frames
      ensures Stacked(st', f.node) && Visited(st', f.node) && f.node < |graph| && f.edge <= |graph[f.node]|
    {
      var i :| 0 <= i < |st'.frames| && st'.frames[i] == f;
      assert st.frames[i] in st.frames;
    }
    forall i, j | 0 <= i < j < |st'.frames| ensures Index(st', st'.frames[i].node) < Index(st', st'.frames[j].node) {
      assert st.frames[i] in st.frames && st.frames[j] in st.frames;
      assert st'.frames[i] in st'.frames && st'.frames[j] in st'.frames;
      assert Index(st, st.frames[i].node) < Index(st, st.frames[j].node);
    }
  }

  lemma LookAtFrames(g: Grammar, graph: Graph, st: Search, target: nat)
    requires Invariant(g, graph, st) && NextEdge(graph, st, target) && Visited(st, target)
    ensures var st' := LookAt(st, target);
            StackOrdered(st') && FramesOrdered(graph, st') && EdgesSeen(graph, st') && Sized(|graph|, st')
  {
    hide OpenReach, ReachOpen, LowWitnessed, LowBounds, ComponentsExact, InRange, GraphFor;
    var st' := LookAt(st, target);
    AdvancedNodes(st.frames);
    StackKeeps(st, st');
    forall f <- st'.frames | f.node < |graph| ensures f.edge <= |graph[f.node]| {
      var i :| 0 <= i < |st'.frames| && st'.frames[i] == f;
      assert st.frames[i] in st.frames;
    }
    FramesKeep(graph, st, st');
    hide StackOrdered, FramesOrdered;
    forall x: nat, k: nat | x < |graph| && k < |graph[x]| && Stacked(st', x) && Seen(st', x, k)
      ensures Visited(st', graph[x][k])
    {
      assert Stacked(st, x);
      SeenAdvanced(graph, st, st', x, k);
      assert Visited(st, graph[x][k]);
    }
    forall x: nat, k: nat | x < |graph| && k < |graph[x]| && Closed(st', x) ensures Closed(st', graph[x][k]) {
      assert Closed(st, x);
      assert Closed(st, graph[x][k]);
    }
  }

  lemma LookAtReach(g: Grammar, graph: Graph, st: Search, target: nat)
    requires Invariant(g, graph, st) && NextEdge(graph, st, target) && Visited(st, target)
    ensures var st' := LookAt(st, target); OpenReach(g, st') && ReachOpen(g, st') && ComponentsExact(g, st')
  {
    hide OpenReach, ReachOpen, ComponentsExact, LowWitnessed, LowBounds, InRange, GraphFor, EdgesSeen, StackOrdered,
      FramesOrdered;
    var st' := LookAt(st, target);
    AdvancedNodes(st.frames);
    assert forall x: nat :: Open(st', x) <==> Open(st, x);
    OpenReachKeeps(g, st, st');
    ReachOpenKeeps(g, st, st');
    ComponentsKeep(g, st, st');
  }

  lemma TopFacts(g: Grammar, graph: Graph, st: Search)
    requires Invariant(g, graph, st) && st.frames != []
    ensures var node := st.frames[|st.frames| - 1].node;
            && node < |graph| && node < |st.lowlink| && Stacked(st, node) && Visited(st, node) && LowFrom(g, st, node)
            && (forall b: nat :: b in graph[node] <==> DependsOn(g, node, b))
            && (forall k: nat :: k < |graph[node]| ==> graph[node][k] < |graph|)
  {
    assert st.frames[|st.frames| - 1] in st.frames;
  }

  lemma LookAtWitness(g: Grammar, graph: Graph, st: Search, target: nat)
    requires Invariant(g, graph, st) && NextEdge(graph, st, target) && Visited(st, target)
    ensures LowWitnessed(g, LookAt(st, target))
  {
    TopFacts(g, graph, st);
    hide Invariant, LowFrom, NextEdge;
    var st' := LookAt(st, target);
    TargetReached(g, graph, st, target);
    forall x: nat | Stacked(st', x) && Visited(st', x) && x < |st'.lowlink| ensures LowFrom(g, st', x) {
      assert Stacked(st, x) && Visited(st, x);
      StackedLow(g, graph, st, x);
      LookAtWitnessAt(g, st, target, x);
    }
  }

  lemma TargetReached(g: Grammar, graph: Graph, st: Search, target: nat)
    requires Invariant(g, graph, st) && NextEdge(graph, st, target)
    ensures Reaches(g, st.frames[|st.frames| - 1].node, target) && DependsOn(g, st.frames[|st.frames| - 1].node, target)
  {
    hide *;
    NextEdgeFacts(g, graph, st, target);
    ReachesStep(g, st.frames[|st.frames| - 1].node, target);
  }

  lemma NextEdgeFacts(g: Grammar, graph: Graph, st: Search, target: nat)
    requires Invariant(g, graph, st) && NextEdge(graph, st, target)
    ensures st.frames != [] && DependsOn(g, st.frames[|st.frames| - 1].node, target) && target < |graph|
  {
    hide DependsOn, StackOrdered, FramesOrdered, EdgesSeen, OpenReach, ReachOpen, LowWitnessed, LowBounds,
      ComponentsExact;
    var f := st.frames[|st.frames| - 1];
    assert graph[f.node][f.edge] in graph[f.node];
  }

  lemma StackedLow(g: Grammar, graph: Graph, st: Search, x: nat)
    requires Invariant(g, graph, st) && Stacked(st, x)
    ensures x < |graph| && x < |st.lowlink| && Visited(st, x) && LowFrom(g, st, x)
  {
    hide LowFrom;
    assert x in st.stack;
  }

  lemma LookAtWitnessAt(g: Grammar, st: Search, target: nat, x: nat)
    requires st.frames != [] && Visited(st, target) && st.frames[|st.frames| - 1].node < |st.lowlink|
    requires Reaches(g, st.frames[|st.frames| - 1].node, target)
    requires Visited(st, x) && x < |st.lowlink| && LowFrom(g, st, x)
    ensures LowFrom(g, LookAt(st, target), x)
  {
    hide LowFrom;
    var st' := LookAt(st, target);
    if st'.lowlink[x] == st.lowlink[x] {
      LowKeeps(g, st, st', x);
    } else {
      LowBelow(g, st, x);
      LowTo(g, st', x, target);
    }
  }

  lemma LowBelow(g: Grammar, st: Search, x: nat)
    requires Visited(st, x) && x < |st.lowlink| && LowFrom(g, st, x)
    ensures st.lowlink[x] <= Index(st, x)
  {
  }

  lemma LowTo(g: Grammar, st: Search, x: nat, y: nat)
    requires Visited(st, x) && x < |st.lowlink| && Stacked(st, y) && Visited(st, y)
    requires Index(st, y) == st.lowlink[x] <= Index(st, x)
    requires Reaches(g, x, y)
    ensures LowFrom(g, st, x)
  {
  }

  lemma LookAtBounds(g: Grammar, graph: Graph, st: Search, target: nat)
    requires Invariant(g, graph, st) && NextEdge(graph, st, target) && Visited(st, target)
    ensures LowBounds(graph, LookAt(st, target))
  {
    hide InRange, EdgesSeen, ComponentsExact, OpenReach, ReachOpen, StackOrdered, GraphFor, LowWitnessed, Seen;
    var st' := LookAt(st, target);
    AdvancedNodes(st.frames);
    forall i: nat, z: nat, k: nat | i < |st'.frames| && InRegion(st', i, z) && z < |graph| && k < |graph[z]|
      && Seen(st', z, k)
      ensures LowBound(graph, st', i, z, k)
    {
      RegionKeeps(st, st', i, z);
      SeenAdvanced(graph, st, st', z, k);
      if Seen(st, z, k) {
        assert LowBound(graph, st, i, z, k);
      } else {
        TopRegion(graph, st, i);
      }
    }
  }

  lemma RegionKeeps(st: Search, st': Search, i: nat, z: nat)
    requires SameStack(st, st') && |st'.frames| == |st.frames| && i < |st.frames| && InRegion(st', i, z)
    requires forall i :: 0 <= i < |st.frames| ==> st'.frames[i].node == st.frames[i].node
    ensures InRegion(st, i, z)
  {
  }

  lemma LookAtKeeps(g: Grammar, graph: Graph, st: Search, target: nat)
    requires Invariant(g, graph, st) && NextEdge(graph, st, target) && Visited(st, target)
    ensures Invariant(g, graph, LookAt(st, target))
  {
    hide StackOrdered, FramesOrdered, EdgesSeen, OpenReach, ReachOpen, LowWitnessed, LowBounds, ComponentsExact,
      GraphFor, InRange;
    LookAtFrames(g, graph, st, target);
    LookAtReach(g, graph, st, target);
    LookAtWitness(g, graph, st, target);
    LookAtBounds(g, graph, st, target);
  }
}
