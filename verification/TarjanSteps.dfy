/**
 Every step of the search keeps its invariant: entering a node, looking at an edge (in `Tarjan`), retreating
 from a node to its parent, and closing a component.
 */
module TarjanSteps {
  import opened Grammars
  import opened SchemaGrammars
  import opened Tarjan

  // ---------- Entering a node ----------

  function Enter(st: Search, node: nat): Search
    requires node < |st.indices| == |st.lowlink| == |st.onStack|
  {
    Search(st.nextIndex + 1, st.indices[node := Some(st.nextIndex)], st.lowlink[node := st.nextIndex],
      st.onStack[node := true],
           st.stack + [node], (if st.frames == [] then [] else Advanced(st.frames)) + [Frame(node, 0)], st.components)
  }

  // A new node, reached over the next edge of the top frame or as a new root.
  ghost predicate Entering(g: Grammar, graph: Graph, st: Search, node: nat) {
    && Invariant(g, graph, st) && node < |graph| && !Visited(st, node)
    && |st.indices| == |st.lowlink| == |st.onStack| == |graph|
    && (st.frames == [] || NextEdge(graph, st, node))
  }

  lemma EnterFacts(g: Grammar, graph: Graph, st: Search, node: nat)
    requires Entering(g, graph, st, node)
    ensures var st' := Enter(st, node);
            && (forall x: nat :: Visited(st', x) <==> Visited(st, x) || x == node)
            && (forall x: nat :: Stacked(st', x) <==> Stacked(st, x) || x == node)
            && (forall x: nat :: Visited(st, x) ==> Index(st', x) == Index(st, x) < st.nextIndex)
            && Visited(st', node) && Index(st', node) == st.nextIndex && !Stacked(st, node)
            && (forall x: nat :: Stacked(st, x) ==> Visited(st, x))
            && (forall x: nat :: Closed(st', x) <==> Closed(st, x))
            && (forall x: nat :: Open(st', x) <==> Open(st, x) || x == node)
  {
    hide FramesOrdered, EdgesSeen, OpenReach, ReachOpen, LowWitnessed, LowBounds, ComponentsExact, GraphFor, InRange,
      NextEdge;
    var st' := Enter(st, node);
    assert !Stacked(st, node);
    EnterFrames(st, node);
    forall x: nat ensures Open(st', x) <==> Open(st, x) || x == node {
      if Open(st, x) {
        var i :| 0 <= i < |st.frames| && st.frames[i].node == x;
        assert st'.frames[i].node == x;
      }
      if x == node {
        assert st'.frames[|st.frames|].node == x;
      }
    }
  }

  lemma EnterFrames(st: Search, node: nat)
    requires node < |st.indices| == |st.lowlink| == |st.onStack|
    ensures var st' := Enter(st, node);
            && |st'.frames| == |st.frames| + 1 && st'.frames[|st.frames|] == Frame(node, 0)
            && (forall i :: 0 <= i < |st.frames| ==> st'.frames[i].node == st.frames[i].node)
            && (st.frames != [] ==> st'.frames[..|st.frames|] == Advanced(st.frames))
  {
    if st.frames != [] {
      AdvancedNodes(st.frames);
    }
  }

  lemma StackPair(st: Search, i: nat, j: nat)
    requires StackOrdered(st) && i < j < |st.stack|
    ensures Visited(st, st.stack[i]) && Visited(st, st.stack[j]) && Index(st, st.stack[i]) < Index(st, st.stack[j])
  {
    assert st.stack[i] in st.stack && st.stack[j] in st.stack;
  }

  lemma StackMember(st: Search, x: nat)
    requires StackOrdered(st)
    ensures Stacked(st, x) <==> x in st.stack
    ensures Stacked(st, x) ==> Visited(st, x)
    ensures Visited(st, x) ==> Index(st, x) < st.nextIndex
  {
  }

  lemma EnterStack(g: Grammar, graph: Graph, st: Search, node: nat)
    requires Entering(g, graph, st, node)
    ensures StackOrdered(Enter(st, node)) && Sized(|graph|, Enter(st, node))
  {
    hide Invariant, Entering, Visited, Stacked, Index, StackOrdered, Closed, Open;
    EnteringInvariant(g, graph, st, node);
    EnterFacts(g, graph, st, node);
    var st' := Enter(st, node);
    assert (forall x: nat :: Stacked(st', x) <==> x in st'.stack) && (forall x <- st'.stack :: Visited(st', x)) by {
      forall x: nat ensures Stacked(st', x) <==> x in st'.stack {
        StackMember(st, x);
      }
    }
    forall i: nat, j: nat | i < j < |st'.stack| ensures StackPairOrdered(st', i, j) {
      StackMember(st, st.stack[i]);
      if j < |st.stack| {
        StackPair(st, i, j);
      }
    }
    forall x: nat | Visited(st', x) ensures Index(st', x) < st'.nextIndex {
      StackMember(st, x);
    }
    StackFrom(st');
  }

  ghost predicate StackPairOrdered(st: Search, i: nat, j: nat)
    requires i < j < |st.stack|
  {
    Visited(st, st.stack[i]) && Visited(st, st.stack[j]) && Index(st, st.stack[i]) < Index(st, st.stack[j])
  }

  lemma StackFrom(st: Search)
    requires (forall x: nat :: Stacked(st, x) <==> x in st.stack) && (forall x <- st.stack :: Visited(st, x))
    requires forall i: nat, j: nat :: i < j < |st.stack| ==> StackPairOrdered(st, i, j)
    requires forall x: nat :: Visited(st, x) ==> Index(st, x) < st.nextIndex
    ensures StackOrdered(st)
  {
    forall i, j | 0 <= i < j < |st.stack| ensures Index(st, st.stack[i]) < Index(st, st.stack[j]) {
      assert StackPairOrdered(st, i, j);
    }
  }

  lemma FrameKnown(graph: Graph, st: Search, i: nat)
    requires FramesOrdered(graph, st) && i < |st.frames|
    ensures var f := st.frames[i];
            Stacked(st, f.node) && Visited(st, f.node) && f.node < |graph| && f.edge <= |graph[f.node]|
  {
    assert st.frames[i] in st.frames;
  }

  lemma FramePair(graph: Graph, st: Search, i: nat, j: nat)
    requires FramesOrdered(graph, st) && i < j < |st.frames|
    ensures FramePairOrdered(st, i, j)
  {
    FrameKnown(graph, st, i);
    FrameKnown(graph, st, j);
  }

  ghost predicate FramePairOrdered(st: Search, i: nat, j: nat)
    requires i < j < |st.frames|
  {
    Visited(st, st.frames[i].node) && Visited(st, st.frames[j].node)
      && Index(st, st.frames[i].node) < Index(st, st.frames[j].node)
  }

  ghost predicate FrameFine(graph: Graph, st: Search, f: Frame) {
    Stacked(st, f.node) && Visited(st, f.node) && f.node < |graph| && f.edge <= |graph[f.node]|
  }

  lemma FramesFrom(graph: Graph, st: Search)
    requires forall i: nat :: i < |st.frames| ==> FrameFine(graph, st, st.frames[i])
    requires forall i: nat, j: nat :: i < j < |st.frames| ==> FramePairOrdered(st, i, j)
    ensures FramesOrdered(graph, st)
  {
    forall f <- st.frames ensures FrameFine(graph, st, f) {
      var i :| 0 <= i < |st.frames| && st.frames[i] == f;
    }
    forall i, j | 0 <= i < j < |st.frames| ensures Index(st, st.frames[i].node) < Index(st, st.frames[j].node) {
      assert FramePairOrdered(st, i, j);
    }
  }

  lemma EnterFramesOrdered(g: Grammar, graph: Graph, st: Search, node: nat)
    requires Entering(g, graph, st, node)
    ensures FramesOrdered(graph, Enter(st, node))
  {
    hide Invariant, Entering, Visited, Stacked, Index, FramesOrdered, Closed, Open, Enter;
    EnteringInvariant(g, graph, st, node);
    EnterFacts(g, graph, st, node);
    EnterFrames(st, node);
    EnteringEdge(g, graph, st, node);
    var st' := Enter(st, node);
    forall i: nat | i < |st'.frames| ensures FrameFine(graph, st', st'.frames[i]) {
      if i < |st.frames| {
        FrameKnown(graph, st, i);
        assert st'.frames[i] == st'.frames[..|st.frames|][i];
      }
    }
    forall i: nat, j: nat | i < j < |st'.frames| ensures FramePairOrdered(st', i, j) {
      FrameKnown(graph, st, i);
      if j < |st.frames| {
        FramePair(graph, st, i, j);
      }
    }
    FramesFrom(graph, st');
  }

  lemma EnteringEdge(g: Grammar, graph: Graph, st: Search, node: nat)
    requires Entering(g, graph, st, node)
    ensures node < |graph|
    ensures st.frames != [] ==> var f := st.frames[|st.frames| - 1]; f.node < |graph| && f.edge < |graph[f.node]|
  {
    hide Invariant;
  }

  lemma EnterSeen(graph: Graph, st: Search, node: nat, z: nat, k: nat)
    requires FramesOrdered(graph, st) && node < |st.indices| == |st.lowlink| == |st.onStack|
    requires Seen(Enter(st, node), z, k)
    ensures z != node
    ensures (Seen(st, z, k)
            || (st.frames != [] && z == st.frames[|st.frames| - 1].node && k == st.frames[|st.frames| - 1].edge))
  {
    var st' := Enter(st, node);
    EnterFrames(st, node);
    var last := st'.frames[|st.frames|];
    assert last.node == node && last.edge == 0;
    if st.frames != [] {
      SeenAdvanced(graph, st, st', z, k);
    }
  }

  lemma EnterEdges(g: Grammar, graph: Graph, st: Search, node: nat)
    requires Entering(g, graph, st, node)
    ensures EdgesSeen(graph, Enter(st, node))
  {
    hide StackOrdered, FramesOrdered, OpenReach, ReachOpen, LowWitnessed, LowBounds, ComponentsExact, GraphFor,
      InRange, Open, Visited, Stacked, Closed, Index, Seen;
    EnteringInvariant(g, graph, st, node);
    EnterFacts(g, graph, st, node);
    var st' := Enter(st, node);
    forall x: nat, k: nat | x < |graph| && k < |graph[x]| && Stacked(st', x) && Seen(st', x, k)
      ensures Visited(st', graph[x][k])
    {
      EnterSeen(graph, st, node, x, k);
      assert Stacked(st, x) && Seen(st, x, k) ==> Visited(st, graph[x][k]);
    }
    forall x: nat, k: nat | x < |graph| && k < |graph[x]| && Closed(st', x) ensures Closed(st', graph[x][k]) {
      assert Closed(st, x);
      assert Closed(st, graph[x][k]);
    }
  }

  // An open node reaches the node being entered.
  lemma ReachesEntered(g: Grammar, graph: Graph, st: Search, node: nat, x: nat)
    requires Entering(g, graph, st, node) && Open(st, x)
    ensures Reaches(g, x, node)
  {
    hide StackOrdered, EdgesSeen, ReachOpen, LowWitnessed, LowBounds, ComponentsExact, GraphFor, InRange, Reaches;
    var i: nat :| i < |st.frames| && st.frames[i].node == x;
    var top := |st.frames| - 1;
    FrameKnown(graph, st, i);
    FrameKnown(graph, st, top);
    FrameBelowTop(graph, st, i);
    assert Open(st, st.frames[top].node);
    TargetReached(g, graph, st, node);
    ReachesTransitive(g, x, st.frames[top].node, node);
  }

  lemma EnterReach(g: Grammar, graph: Graph, st: Search, node: nat)
    requires Entering(g, graph, st, node)
    ensures OpenReach(g, Enter(st, node)) && ReachOpen(g, Enter(st, node))
  {
    hide StackOrdered, FramesOrdered, EdgesSeen, LowWitnessed, LowBounds, ComponentsExact, GraphFor, InRange, Open,
      Visited, Stacked, Closed, Index, Reaches, Entering;
    EnteringInvariant(g, graph, st, node);
    EnterFacts(g, graph, st, node);
    var st' := Enter(st, node);
    ReachesItself(g, node);
    forall x: nat, y: nat | Open(st', x) && Stacked(st', y) && Visited(st', x) && Visited(st', y)
      && Index(st', x) <= Index(st', y)
      ensures Reaches(g, x, y)
    {
      if x != node && y == node {
        ReachesEntered(g, graph, st, node, x);
      } else if x != node {
        assert Visited(st, x) && Visited(st, y);
      }
    }
    forall y: nat | Stacked(st', y) && Visited(st', y) ensures ReachesOpen(g, st', y) {
      if y == node {
        assert Open(st', node);
      } else {
        assert ReachesOpen(g, st, y);
        var x: nat :| Open(st, x) && Visited(st, x) && Index(st, x) <= Index(st, y) && Reaches(g, y, x);
        assert Open(st', x) && Visited(st', x) && Index(st', x) <= Index(st', y);
      }
    }
  }

  lemma EnteringInvariant(g: Grammar, graph: Graph, st: Search, node: nat)
    requires Entering(g, graph, st, node)
    ensures Invariant(g, graph, st) && node < |st.indices| == |st.lowlink| == |st.onStack| == |graph|
    ensures StackOrdered(st) && FramesOrdered(graph, st) && GraphFor(g, graph)
  {
    hide StackOrdered, FramesOrdered, EdgesSeen, OpenReach, ReachOpen, LowWitnessed, LowBounds, ComponentsExact,
      GraphFor, InRange;
  }

  lemma EnterLow(g: Grammar, graph: Graph, st: Search, node: nat)
    requires Entering(g, graph, st, node)
    ensures LowWitnessed(g, Enter(st, node))
  {
    hide StackOrdered, FramesOrdered, EdgesSeen, OpenReach, ReachOpen, LowBounds, ComponentsExact, GraphFor, InRange,
      Open, Visited, Stacked, Closed, Index, Reaches;
    EnteringInvariant(g, graph, st, node);
    EnterFacts(g, graph, st, node);
    var st' := Enter(st, node);
    ReachesItself(g, node);
    forall x: nat | Stacked(st', x) && Visited(st', x) && x < |st'.lowlink| ensures LowFrom(g, st', x) {
      if x != node {
        assert LowFrom(g, st, x);
        var y: nat :| Stacked(st, y) && Visited(st, y) && Index(st, y) == st.lowlink[x] && Reaches(g, x, y);
        assert Stacked(st', y) && Visited(st', y) && Index(st', y) == st'.lowlink[x];
      }
    }
  }

  lemma EnterRegion(g: Grammar, graph: Graph, st: Search, node: nat, i: nat, z: nat)
    requires Entering(g, graph, st, node) && i < |Enter(st, node).frames| && InRegion(Enter(st, node), i, z)
    requires z != node
    ensures i < |st.frames| && InRegion(st, i, z)
  {
    hide Invariant, Entering, Visited, Stacked, Index, FramesOrdered, Closed, Open, Enter;
    EnteringInvariant(g, graph, st, node);
    EnterFacts(g, graph, st, node);
    EnterFrames(st, node);
    var st' := Enter(st, node);
    StackMember(st, z);
    if i < |st.frames| {
      FrameKnown(graph, st, i);
      if i + 1 < |st.frames| {
        FrameKnown(graph, st, i + 1);
      }
    }
  }

  lemma EnterBounds(g: Grammar, graph: Graph, st: Search, node: nat)
    requires Entering(g, graph, st, node)
    ensures LowBounds(graph, Enter(st, node))
  {
    hide Invariant, Entering, Open, Visited, Stacked, Closed, Index, Seen, InRegion, FramesOrdered, Enter, LowBound;
    EnteringInvariant(g, graph, st, node);
    EnterFacts(g, graph, st, node);
    EnterFrames(st, node);
    var st' := Enter(st, node);
    forall i: nat, z: nat, k: nat | i < |st'.frames| && InRegion(st', i, z) && z < |graph| && k < |graph[z]|
      && Seen(st', z, k)
      ensures LowBound(graph, st', i, z, k)
    {
      EnterSeen(graph, st, node, z, k);
      EnterRegion(g, graph, st, node, i, z);
      EnterBound(g, graph, st, node, i, z, k);
    }
  }

  lemma EnterBound(g: Grammar, graph: Graph, st: Search, node: nat, i: nat, z: nat, k: nat)
    requires Entering(g, graph, st, node) && i < |st.frames| && InRegion(st, i, z) && z < |graph| && k < |graph[z]|
    requires Seen(st, z, k) || (z == st.frames[|st.frames| - 1].node && k == st.frames[|st.frames| - 1].edge)
    ensures |Enter(st, node).frames| == |st.frames| + 1 && LowBound(graph, Enter(st, node), i, z, k)
  {
    hide Invariant, Open, Visited, Stacked, Closed, Index, Seen, InRegion;
    EnteringInvariant(g, graph, st, node);
    EnterFacts(g, graph, st, node);
    EnterFrames(st, node);
    FrameLow(g, graph, st, i);
    if Seen(st, z, k) {
      OldBound(g, graph, st, i, z, k);
    }
  }

  // The low link of an open node is below the next index, and the node is not a new one.
  lemma FrameLow(g: Grammar, graph: Graph, st: Search, i: nat)
    requires Invariant(g, graph, st) && i < |st.frames|
    ensures st.frames[i].node < |st.lowlink| && st.lowlink[st.frames[i].node] < st.nextIndex
    ensures Visited(st, st.frames[i].node)
  {
    hide EdgesSeen, OpenReach, ReachOpen, LowBounds, ComponentsExact, GraphFor, InRange, Reaches;
    FrameKnown(graph, st, i);
    assert LowFrom(g, st, st.frames[i].node);
  }

  // A target seen from a region was visited, and is bounded if it is stacked.
  lemma OldBound(g: Grammar, graph: Graph, st: Search, i: nat, z: nat, k: nat)
    requires Invariant(g, graph, st) && i < |st.frames| && InRegion(st, i, z) && z < |graph| && k < |graph[z]|
    requires Seen(st, z, k)
    ensures LowBound(graph, st, i, z, k) && Visited(st, graph[z][k])
  {
    hide OpenReach, ReachOpen, LowWitnessed, ComponentsExact, GraphFor, InRange, StackOrdered, FramesOrdered;
  }

  lemma EnterComponents(g: Grammar, graph: Graph, st: Search, node: nat)
    requires Entering(g, graph, st, node)
    ensures ComponentsExact(g, Enter(st, node))
  {
    hide StackOrdered, FramesOrdered, EdgesSeen, OpenReach, ReachOpen, LowWitnessed, LowBounds, GraphFor, InRange,
      Open, Visited, Stacked, Closed, Index, IsScc;
    EnteringInvariant(g, graph, st, node);
    EnterFacts(g, graph, st, node);
  }

  lemma EnterKeeps(g: Grammar, graph: Graph, st: Search, node: nat)
    requires Entering(g, graph, st, node)
    ensures Invariant(g, graph, Enter(st, node))
  {
    hide StackOrdered, FramesOrdered, EdgesSeen, OpenReach, ReachOpen, LowWitnessed, LowBounds, ComponentsExact,
      GraphFor, InRange;
    EnteringInvariant(g, graph, st, node);
    EnterStack(g, graph, st, node);
    EnterFramesOrdered(g, graph, st, node);
    EnterEdges(g, graph, st, node);
    EnterReach(g, graph, st, node);
    EnterLow(g, graph, st, node);
    EnterBounds(g, graph, st, node);
    EnterComponents(g, graph, st, node);
  }
}
