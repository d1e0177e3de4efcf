/**
 Leaving a node whose edges have all been looked at: back to the parent, or by closing its component.
 */
module TarjanClosing {
  import opened SchemaGrammars
  import opened Tarjan
  import opened TarjanSteps

  // The top frame has looked at all its edges.
  ghost predicate Finishing(g: Grammar, graph: Graph, st: Search) {
    Invariant(g, graph, st) && st.frames != [] && Finished(graph, st)
  }

  predicate Finished(graph: Graph, st: Search)
    requires st.frames != []
  {
    var f := st.frames[|st.frames| - 1];
    f.node < |graph| && f.edge == |graph[f.node]|
  }

  function TopNode(st: Search): nat
    requires st.frames != []
  {
    st.frames[|st.frames| - 1].node
  }

  predicate FramesSized(st: Search) {
    forall i: nat :: i < |st.frames| ==> st.frames[i].node < |st.lowlink|
  }

  lemma FinishingFacts(g: Grammar, graph: Graph, st: Search)
    requires Finishing(g, graph, st)
    ensures Invariant(g, graph, st) && StackOrdered(st) && FramesOrdered(graph, st) && GraphFor(g, graph)
    ensures Sized(|graph|, st)
    ensures EdgesSeen(graph, st) && OpenReach(g, st) && ReachOpen(g, st) && LowWitnessed(g, st) && LowBounds(graph, st)
    ensures ComponentsExact(g, st)
    ensures st.frames != [] && TopNode(st) < |graph| && Visited(st, TopNode(st)) && Stacked(st, TopNode(st))
    ensures Open(st, TopNode(st))
    ensures LowFrom(g, st, TopNode(st))
    ensures FramesSized(st)
  {
    hide StackOrdered, FramesOrdered, EdgesSeen, OpenReach, ReachOpen, LowWitnessed, LowBounds, ComponentsExact,
      GraphFor, InRange, Reaches;
    FrameKnown(graph, st, |st.frames| - 1);
    forall i: nat | i < |st.frames| ensures st.frames[i].node < |st.lowlink| {
      FrameKnown(graph, st, i);
    }
    StackedLow(g, graph, st, TopNode(st));
    assert Open(st, TopNode(st));
  }

  // ---------- Back to the parent ----------

  // Pop the frame; the parent, if there is one, takes over the low link.
  function Retreat(st: Search): Search
    requires st.frames != [] && FramesSized(st)
  {
    var rest := st.frames[..|st.frames| - 1];
    if rest == [] then st.(frames := rest)
    else
      var parent := rest[|rest| - 1].node;
      st.(frames := rest, lowlink := st.lowlink[parent := Min(st.lowlink[parent], st.lowlink[TopNode(st)])])
  }

  lemma OpenAfter(g: Grammar, graph: Graph, st: Search)
    requires Finishing(g, graph, st)
    ensures FramesSized(st)
    ensures forall x: nat :: Open(Retreat(st), x) <==> Open(st, x) && x != TopNode(st)
  {
    hide Invariant, StackOrdered, FramesOrdered, EdgesSeen, OpenReach, ReachOpen, LowWitnessed, LowBounds,
      ComponentsExact, LowFrom, GraphFor, Finishing;
    FinishingFacts(g, graph, st);
    var st' := Retreat(st);
    forall x: nat ensures Open(st', x) <==> Open(st, x) && x != TopNode(st) {
      if Open(st', x) {
        var i: nat :| i < |st'.frames| && st'.frames[i].node == x;
        FrameBelowTop(graph, st, i);
        assert st.frames[i].node == x;
      }
      if Open(st, x) && x != TopNode(st) {
        var i: nat :| i < |st.frames| && st.frames[i].node == x;
        assert st'.frames[i].node == x;
      }
    }
  }

  // A finished node with a smaller low link reaches an open node other than itself.
  lemma LowReachesOpen(g: Grammar, graph: Graph, st: Search) returns (w: nat, x: nat)
    requires Finishing(g, graph, st) && TopNode(st) < |st.lowlink| && Visited(st, TopNode(st))
    requires st.lowlink[TopNode(st)] < Index(st, TopNode(st))
    ensures Stacked(st, w) && Visited(st, w) && Index(st, w) == st.lowlink[TopNode(st)] && Reaches(g, TopNode(st), w)
    ensures Open(st, x) && Visited(st, x) && Index(st, x) <= Index(st, w) && Reaches(g, TopNode(st), x)
    ensures x != TopNode(st)
  {
    hide Invariant, Reaches, StackOrdered, FramesOrdered, EdgesSeen, OpenReach, LowBounds, ComponentsExact, Open;
    FinishingFacts(g, graph, st);
    w :| Stacked(st, w) && Visited(st, w) && Index(st, w) == st.lowlink[TopNode(st)] && Reaches(g, TopNode(st), w);
    assert ReachesOpen(g, st, w);
    x :| Open(st, x) && Visited(st, x) && Index(st, x) <= Index(st, w) && Reaches(g, w, x);
    ReachesTransitive(g, TopNode(st), w, x);
  }

  // So it has a parent.
  lemma HasParent(g: Grammar, graph: Graph, st: Search)
    requires Finishing(g, graph, st) && TopNode(st) < |st.lowlink| && Visited(st, TopNode(st))
    requires st.lowlink[TopNode(st)] < Index(st, TopNode(st))
    ensures |st.frames| > 1
  {
    hide Invariant, Reaches;
    var w, x := LowReachesOpen(g, graph, st);
    var i: nat :| i < |st.frames| && st.frames[i].node == x;
  }

  lemma RetreatFrames(g: Grammar, graph: Graph, st: Search)
    requires Finishing(g, graph, st) && FramesSized(st)
    ensures StackOrdered(Retreat(st)) && FramesOrdered(graph, Retreat(st)) && Sized(|graph|, Retreat(st))
    ensures ComponentsExact(g, Retreat(st)) && OpenReach(g, Retreat(st))
  {
    hide Invariant, StackOrdered, FramesOrdered, EdgesSeen, OpenReach, ReachOpen, LowWitnessed, LowBounds,
      ComponentsExact, Open;
    FinishingFacts(g, graph, st);
    OpenAfter(g, graph, st);
    var st' := Retreat(st);
    StackKeeps(st, st');
    ComponentsKeep(g, st, st');
    OpenReachKeeps(g, st, st');
    forall f <- st'.frames | f.node < |graph| ensures f.edge <= |graph[f.node]| {
      var i: nat :| i < |st'.frames| && st'.frames[i] == f;
      FrameKnown(graph, st, i);
    }
    FramesKeep(graph, st, st');
  }

  lemma RetreatSeen(g: Grammar, graph: Graph, st: Search, z: nat, k: nat)
    requires Finishing(g, graph, st) && FramesSized(st)
    requires z < |graph| && k < |graph[z]| && Seen(Retreat(st), z, k)
    ensures Seen(st, z, k)
  {
    hide Invariant;
    FinishingFacts(g, graph, st);
    var st' := Retreat(st);
    forall i | 0 <= i < |st.frames| && st.frames[i].node == z ensures k < st.frames[i].edge {
      if i < |st.frames| - 1 {
        assert st'.frames[i] == st.frames[i];
      }
    }
  }

  lemma RetreatEdges(g: Grammar, graph: Graph, st: Search)
    requires Finishing(g, graph, st) && FramesSized(st)
    ensures EdgesSeen(graph, Retreat(st))
  {
    hide Invariant, StackOrdered, FramesOrdered, OpenReach, ReachOpen, LowWitnessed, LowBounds, ComponentsExact, Open,
      Seen;
    FinishingFacts(g, graph, st);
    var st' := Retreat(st);
    forall x: nat, k: nat | x < |graph| && k < |graph[x]| && Stacked(st', x) && Seen(st', x, k)
      ensures Visited(st', graph[x][k])
    {
      RetreatSeen(g, graph, st, x, k);
      assert Stacked(st, x);
      assert Visited(st, graph[x][k]);
    }
    forall x: nat, k: nat | x < |graph| && k < |graph[x]| && Closed(st', x) ensures Closed(st', graph[x][k]) {
      assert Closed(st, x);
      assert Closed(st, graph[x][k]);
    }
  }

  lemma RetreatReach(g: Grammar, graph: Graph, st: Search)
    requires Finishing(g, graph, st) && FramesSized(st)
    requires Visited(st, TopNode(st)) && st.lowlink[TopNode(st)] < Index(st, TopNode(st))
    ensures ReachOpen(g, Retreat(st))
  {
    hide Invariant, StackOrdered, FramesOrdered, EdgesSeen, OpenReach, LowWitnessed, LowBounds, ComponentsExact, Open,
      Reaches;
    FinishingFacts(g, graph, st);
    OpenAfter(g, graph, st);
    var st' := Retreat(st);
    var w, o := LowReachesOpen(g, graph, st);
    forall y: nat | Stacked(st', y) && Visited(st', y) ensures ReachesOpen(g, st', y) {
      assert Stacked(st, y) && Visited(st, y);
      assert ReachesOpen(g, st, y);
      var x: nat :| Open(st, x) && Visited(st, x) && Index(st, x) <= Index(st, y) && Reaches(g, y, x);
      if x == TopNode(st) {
        ReachesTransitive(g, y, x, o);
        assert Open(st', o) && Visited(st', o) && Index(st', o) <= Index(st', y);
      } else {
        assert Open(st', x) && Visited(st', x) && Index(st', x) <= Index(st', y);
      }
    }
  }

  lemma RetreatLow(g: Grammar, graph: Graph, st: Search)
    requires Finishing(g, graph, st) && FramesSized(st)
    ensures LowWitnessed(g, Retreat(st))
  {
    hide Invariant, StackOrdered, FramesOrdered, EdgesSeen, OpenReach, ReachOpen, LowBounds, ComponentsExact, Open,
      Reaches, LowFrom;
    FinishingFacts(g, graph, st);
    var st' := Retreat(st);
    forall x: nat | Stacked(st', x) && Visited(st', x) && x < |st'.lowlink| ensures LowFrom(g, st', x) {
      assert Stacked(st, x) && Visited(st, x);
      assert LowFrom(g, st, x);
      if st'.lowlink[x] == st.lowlink[x] {
        LowKeeps(g, st, st', x);
      } else {
        ParentLow(g, graph, st);
      }
    }
  }

  // The parent reaches what its child's low link stands for.
  lemma ParentLow(g: Grammar, graph: Graph, st: Search)
    requires Finishing(g, graph, st) && FramesSized(st) && |st.frames| > 1
    ensures var parent := st.frames[|st.frames| - 2].node;
            && Visited(st, parent) && parent < |Retreat(st).lowlink|
            && (Retreat(st).lowlink[parent] != st.lowlink[parent] ==> LowFrom(g, Retreat(st), parent))
  {
    hide Invariant, StackOrdered, FramesOrdered, OpenReach, EdgesSeen, ReachOpen, LowWitnessed, LowBounds,
      ComponentsExact, Reaches, LowFrom, Finishing, GraphFor;
    FinishingFacts(g, graph, st);
    var parent, node := st.frames[|st.frames| - 2].node, TopNode(st);
    FrameKnown(graph, st, |st.frames| - 2);
    FrameBelowTop(graph, st, |st.frames| - 2);
    assert Open(st, parent);
    OpenReaches(g, st, parent, node);
    StackedLow(g, graph, st, parent);
    LowBelow(g, st, parent);
    var w := LowWitness(g, st, node);
    ReachesTransitive(g, parent, node, w);
    var st' := Retreat(st);
    if st'.lowlink[parent] != st.lowlink[parent] {
      LowTo(g, st', parent, w);
    }
  }

  lemma OpenReaches(g: Grammar, st: Search, x: nat, y: nat)
    requires OpenReach(g, st) && Open(st, x) && Stacked(st, y) && Visited(st, x) && Visited(st, y)
    requires Index(st, x) <= Index(st, y)
    ensures Reaches(g, x, y)
  {
    hide Reaches, Open;
  }

  lemma LowWitness(g: Grammar, st: Search, x: nat) returns (w: nat)
    requires Visited(st, x) && x < |st.lowlink| && LowFrom(g, st, x)
    ensures Stacked(st, w) && Visited(st, w) && Index(st, w) == st.lowlink[x] && Reaches(g, x, w)
  {
    hide Reaches;
    w :| Stacked(st, w) && Visited(st, w) && Index(st, w) == st.lowlink[x] && Reaches(g, x, w);
  }

  lemma RetreatRegion(g: Grammar, graph: Graph, st: Search, i: nat, z: nat)
    requires Finishing(g, graph, st) && FramesSized(st)
    requires i < |st.frames| - 1 && InRegion(Retreat(st), i, z)
    ensures InRegion(st, i, z) || (i == |st.frames| - 2 && InRegion(st, |st.frames| - 1, z))
  {
    hide Invariant, StackOrdered, FramesOrdered, EdgesSeen, OpenReach, ReachOpen, LowWitnessed, LowBounds,
      ComponentsExact, Open, Reaches, LowFrom, Finishing, GraphFor;
    FinishingFacts(g, graph, st);
    var st' := Retreat(st);
    assert st'.frames[i] == st.frames[i];
    if i + 1 < |st.frames| - 1 {
      assert st'.frames[i + 1] == st.frames[i + 1];
    }
  }

  lemma RetreatBounds(g: Grammar, graph: Graph, st: Search)
    requires Finishing(g, graph, st) && FramesSized(st)
    ensures LowBounds(graph, Retreat(st))
  {
    hide Invariant, StackOrdered, FramesOrdered, EdgesSeen, OpenReach, ReachOpen, LowWitnessed, ComponentsExact, Open,
      Reaches, Seen, InRegion;
    FinishingFacts(g, graph, st);
    var st' := Retreat(st);
    forall i: nat, z: nat, k: nat | i < |st'.frames| && InRegion(st', i, z) && z < |graph| && k < |graph[z]|
      && Seen(st', z, k)
      ensures LowBound(graph, st', i, z, k)
    {
      RetreatSeen(g, graph, st, z, k);
      RetreatRegion(g, graph, st, i, z);
      assert st'.frames[i] == st.frames[i];
      if InRegion(st, i, z) {
        assert LowBound(graph, st, i, z, k);
      } else {
        assert LowBound(graph, st, |st.frames| - 1, z, k);
      }
    }
  }

  lemma RetreatKeeps(g: Grammar, graph: Graph, st: Search)
    requires Finishing(g, graph, st) && FramesSized(st)
    requires Visited(st, TopNode(st)) && st.lowlink[TopNode(st)] < Index(st, TopNode(st))
    ensures Invariant(g, graph, Retreat(st))
  {
    hide StackOrdered, FramesOrdered, EdgesSeen, OpenReach, ReachOpen, LowWitnessed, LowBounds, ComponentsExact,
      GraphFor, InRange;
    RetreatFrames(g, graph, st);
    RetreatEdges(g, graph, st);
    RetreatReach(g, graph, st);
    RetreatLow(g, graph, st);
    RetreatBounds(g, graph, st);
  }

  // ---------- Closing a component ----------

  // The state after the stack is popped down to the finished node: its members, and the rest unchanged.
  ghost predicate ClosedBy(st: Search, st': Search, members: seq<nat>)
    requires st.frames != [] && Visited(st, TopNode(st))
  {
    && st'.indices == st.indices && st'.nextIndex == st.nextIndex && st'.lowlink == st.lowlink
    && st'.frames == st.frames[..|st.frames| - 1]
    && |st'.onStack| == |st.onStack|
       && (forall x: nat :: Stacked(st', x) <==> Stacked(st, x) && !Above(st, TopNode(st), x))
    && st'.stack <= st.stack && (forall x: nat :: x in st'.stack <==> Stacked(st', x))
    && st'.components == st.components + [members]
    && (forall x: nat :: x in members <==> Above(st, TopNode(st), x))
    && (forall i, j :: 0 <= i < j < |members| ==> members[i] < members[j])
  }

  ghost predicate ClosingStep(g: Grammar, graph: Graph, st: Search, st': Search, members: seq<nat>) {
    Finishing(g, graph, st) && Closing(graph, st) && ClosedBy(st, st', members)
  }

  lemma CloseFacts(g: Grammar, graph: Graph, st: Search, st': Search, members: seq<nat>)
    requires ClosingStep(g, graph, st, st', members)
    ensures st.frames != [] && Visited(st, TopNode(st)) && Finishing(g, graph, st) && Closing(graph, st)
    ensures Invariant(g, graph, st)
    ensures forall x: nat :: Visited(st', x) <==> Visited(st, x)
    ensures forall x: nat :: Visited(st, x) ==> Index(st', x) == Index(st, x)
    ensures forall x: nat :: Stacked(st', x) <==> Stacked(st, x) && !Above(st, TopNode(st), x)
    ensures forall x: nat :: Stacked(st', x) ==>
              Stacked(st, x) && Visited(st, x) && Index(st, x) < Index(st, TopNode(st))
    ensures forall x: nat :: Closed(st', x) <==> Closed(st, x) || Above(st, TopNode(st), x)
  {
    hide Invariant, FramesOrdered, EdgesSeen, OpenReach, ReachOpen, LowWitnessed, LowBounds, ComponentsExact, GraphFor,
      LowFrom, Open;
    FinishingFacts(g, graph, st);
    forall x: nat | Stacked(st', x) ensures Visited(st, x) {
      StackMember(st, x);
    }
  }

  lemma CloseOpen(g: Grammar, graph: Graph, st: Search, st': Search, members: seq<nat>)
    requires ClosingStep(g, graph, st, st', members)
    ensures forall x: nat :: Open(st', x) <==> Open(st, x) && x != TopNode(st)
    ensures forall x: nat :: Open(st, x) ==>
              Visited(st, x) && (Index(st, x) >= Index(st, TopNode(st)) ==> x == TopNode(st))
  {
    hide Invariant, StackOrdered, FramesOrdered, EdgesSeen, OpenReach, ReachOpen, LowWitnessed, LowBounds,
      ComponentsExact, GraphFor, LowFrom, Above;
    FinishingFacts(g, graph, st);
    forall x: nat ensures Open(st', x) <==> Open(st, x) && x != TopNode(st) {
      if Open(st', x) {
        var i: nat :| i < |st'.frames| && st'.frames[i].node == x;
        FrameBelowTop(graph, st, i);
        assert st.frames[i].node == x;
      }
      if Open(st, x) && x != TopNode(st) {
        var i: nat :| i < |st.frames| && st.frames[i].node == x;
        assert st'.frames[i].node == x;
      }
    }
    forall x: nat | Open(st, x)
      ensures Visited(st, x) && (Index(st, x) >= Index(st, TopNode(st)) ==> x == TopNode(st))
    {
      var i: nat :| i < |st.frames| && st.frames[i].node == x;
      FrameBelowTop(graph, st, i);
    }
  }

  lemma CloseStack(g: Grammar, graph: Graph, st: Search, st': Search, members: seq<nat>)
    requires ClosingStep(g, graph, st, st', members)
    ensures StackOrdered(st') && Sized(|graph|, st')
  {
    hide Invariant, StackOrdered, FramesOrdered, EdgesSeen, OpenReach, ReachOpen, LowWitnessed, LowBounds,
      ComponentsExact, GraphFor, LowFrom, Open, Closing;
    CloseFacts(g, graph, st, st', members);
    FinishingFacts(g, graph, st);
    hide Visited, Stacked, Index, Above;
    forall i: nat, j: nat | i < j < |st'.stack| ensures StackPairOrdered(st', i, j) {
      StackPair(st, i, j);
    }
    forall x: nat | Visited(st', x) ensures Index(st', x) < st'.nextIndex {
      StackMember(st, x);
    }
    StackFrom(st');
  }

  lemma CloseFrames(g: Grammar, graph: Graph, st: Search, st': Search, members: seq<nat>)
    requires ClosingStep(g, graph, st, st', members)
    ensures FramesOrdered(graph, st')
  {
    hide Invariant, StackOrdered, FramesOrdered, EdgesSeen, OpenReach, ReachOpen, LowWitnessed, LowBounds,
      ComponentsExact, GraphFor, LowFrom, Open, Closing;
    CloseFacts(g, graph, st, st', members);
    FinishingFacts(g, graph, st);
    assert st'.frames == st.frames[..|st.frames| - 1];
    hide Visited, Stacked, Index, ClosingStep;
    forall i: nat | i < |st'.frames| ensures FrameFine(graph, st', st'.frames[i]) {
      FrameKnown(graph, st, i);
      FrameBelowTop(graph, st, i);
      assert !Above(st, TopNode(st), st.frames[i].node);
    }
    forall i: nat, j: nat | i < j < |st'.frames| ensures FramePairOrdered(st', i, j) {
      FramePair(graph, st, i, j);
    }
    FramesFrom(graph, st');
  }

  lemma CloseSeen(g: Grammar, graph: Graph, st: Search, st': Search, members: seq<nat>, z: nat, k: nat)
    requires ClosingStep(g, graph, st, st', members) && Stacked(st', z) && Seen(st', z, k)
    ensures Seen(st, z, k)
  {
    hide Invariant, StackOrdered, FramesOrdered, EdgesSeen, OpenReach, ReachOpen, LowWitnessed, LowBounds,
      ComponentsExact, GraphFor, LowFrom, Open;
    CloseFacts(g, graph, st, st', members);
    forall i | 0 <= i < |st.frames| && st.frames[i].node == z ensures k < st.frames[i].edge {
      if i < |st.frames| - 1 {
        assert st'.frames[i] == st.frames[i];
      }
    }
  }

  lemma CloseEdges(g: Grammar, graph: Graph, st: Search, st': Search, members: seq<nat>)
    requires ClosingStep(g, graph, st, st', members)
    ensures EdgesSeen(graph, st')
  {
    hide Invariant, StackOrdered, FramesOrdered, OpenReach, ReachOpen, LowWitnessed, LowBounds, ComponentsExact,
      GraphFor, LowFrom, Open, Closing, Seen, ClosingStep;
    CloseFacts(g, graph, st, st', members);
    FinishingFacts(g, graph, st);
    hide Visited, Stacked, Index, Closed, Above;
    forall x: nat, k: nat | x < |graph| && k < |graph[x]| && Stacked(st', x) && Seen(st', x, k)
      ensures Visited(st', graph[x][k])
    {
      CloseSeen(g, graph, st, st', members, x, k);
      assert Stacked(st, x);
      assert Visited(st, graph[x][k]);
    }
    forall x: nat, k: nat | x < |graph| && k < |graph[x]| && Closed(st', x) ensures Closed(st', graph[x][k]) {
      if Closed(st, x) {
        assert Closed(st, graph[x][k]);
      } else {
        EdgeDepends(g, graph, x, k);
        AboveStep(g, graph, st, x, graph[x][k]);
      }
    }
  }

  lemma EdgeDepends(g: Grammar, graph: Graph, x: nat, k: nat)
    requires GraphFor(g, graph) && x < |graph| && k < |graph[x]|
    ensures DependsOn(g, x, graph[x][k])
  {
    hide DependsOn;
    assert graph[x][k] in graph[x];
  }

  lemma CloseReach(g: Grammar, graph: Graph, st: Search, st': Search, members: seq<nat>)
    requires ClosingStep(g, graph, st, st', members)
    ensures OpenReach(g, st') && ReachOpen(g, st')
  {
    hide Invariant, StackOrdered, FramesOrdered, EdgesSeen, LowWitnessed, LowBounds, ComponentsExact, GraphFor,
      LowFrom, Closing, ClosingStep, Open, Reaches;
    CloseFacts(g, graph, st, st', members);
    CloseOpen(g, graph, st, st', members);
    FinishingFacts(g, graph, st);
    hide Visited, Stacked, Index, Closed, Above;
    forall x: nat, y: nat | Open(st', x) && Stacked(st', y) && Visited(st', x) && Visited(st', y)
      && Index(st', x) <= Index(st', y)
      ensures Reaches(g, x, y)
    {
      OpenReaches(g, st, x, y);
    }
    forall y: nat | Stacked(st', y) && Visited(st', y) ensures ReachesOpen(g, st', y) {
      assert Stacked(st, y) && Visited(st, y);
      assert ReachesOpen(g, st, y);
      var x: nat :| Open(st, x) && Visited(st, x) && Index(st, x) <= Index(st, y) && Reaches(g, y, x);
      assert Open(st', x) && Visited(st', x) && Index(st', x) <= Index(st', y);
    }
  }

  lemma CloseLow(g: Grammar, graph: Graph, st: Search, st': Search, members: seq<nat>)
    requires ClosingStep(g, graph, st, st', members)
    ensures LowWitnessed(g, st')
  {
    hide Invariant, StackOrdered, FramesOrdered, EdgesSeen, OpenReach, ReachOpen, LowWitnessed, LowBounds,
      ComponentsExact, GraphFor, LowFrom, Closing, Open, Reaches;
    CloseFacts(g, graph, st, st', members);
    FinishingFacts(g, graph, st);
    assert st'.lowlink == st.lowlink;
    hide Visited, Stacked, Index, Closed, ClosingStep;
    forall x: nat | Stacked(st', x) && Visited(st', x) && x < |st'.lowlink| ensures LowFrom(g, st', x) {
      StackedLow(g, graph, st, x);
      LowBelow(g, st, x);
      var w := LowWitness(g, st, x);
      assert !Above(st, TopNode(st), w);
      LowTo(g, st', x, w);
    }
    LowWitnessedFrom(g, st');
  }

  lemma LowWitnessedFrom(g: Grammar, st: Search)
    requires forall x: nat :: Stacked(st, x) && Visited(st, x) && x < |st.lowlink| ==> LowFrom(g, st, x)
    ensures LowWitnessed(g, st)
  {
    hide LowFrom;
  }

  lemma CloseRegion(g: Grammar, graph: Graph, st: Search, st': Search, members: seq<nat>, i: nat, z: nat)
    requires ClosingStep(g, graph, st, st', members) && i < |st'.frames| && InRegion(st', i, z)
    ensures i < |st.frames| - 1 && st'.frames[i] == st.frames[i] && InRegion(st, i, z)
  {
    hide Invariant, StackOrdered, FramesOrdered, EdgesSeen, OpenReach, ReachOpen, LowWitnessed, LowBounds,
      ComponentsExact, GraphFor, LowFrom, Closing, Open, Reaches;
    CloseFacts(g, graph, st, st', members);
    assert st'.frames == st.frames[..|st.frames| - 1];
    if i + 1 < |st'.frames| {
      assert st'.frames[i + 1] == st.frames[i + 1];
    }
    hide Visited, Stacked, Index, Closed, Above, ClosingStep;
  }

  lemma CloseBounds(g: Grammar, graph: Graph, st: Search, st': Search, members: seq<nat>)
    requires ClosingStep(g, graph, st, st', members)
    ensures LowBounds(graph, st')
  {
    hide Invariant, StackOrdered, FramesOrdered, EdgesSeen, OpenReach, ReachOpen, LowWitnessed, ComponentsExact,
      GraphFor, LowFrom, Closing, Open, Reaches, Seen, InRegion;
    CloseFacts(g, graph, st, st', members);
    FinishingFacts(g, graph, st);
    assert st'.lowlink == st.lowlink;
    hide Visited, Stacked, Index, Closed, ClosingStep, Above;
    forall i: nat, z: nat, k: nat | i < |st'.frames| && InRegion(st', i, z) && z < |graph| && k < |graph[z]|
      && Seen(st', z, k)
      ensures LowBound(graph, st', i, z, k)
    {
      RegionStacked(st', i, z);
      CloseSeen(g, graph, st, st', members, z, k);
      CloseRegion(g, graph, st, st', members, i, z);
      assert LowBound(graph, st, i, z, k);
    }
  }

  lemma RegionStacked(st: Search, i: nat, z: nat)
    requires i < |st.frames| && InRegion(st, i, z)
    ensures Stacked(st, z) && Visited(st, z)
  {
  }

  // Everything above the closing node reaches it and is reached by it.
  lemma AboveConnected(g: Grammar, graph: Graph, st: Search, st': Search, members: seq<nat>, z: nat)
    requires ClosingStep(g, graph, st, st', members) && st.frames != [] && Visited(st, TopNode(st))
    requires Above(st, TopNode(st), z)
    ensures Reaches(g, TopNode(st), z) && Reaches(g, z, TopNode(st))
  {
    hide Invariant, StackOrdered, FramesOrdered, EdgesSeen, OpenReach, LowWitnessed, LowBounds, ComponentsExact,
      GraphFor, LowFrom, Closing, Open, ClosingStep, Reaches;
    CloseFacts(g, graph, st, st', members);
    CloseOpen(g, graph, st, st', members);
    FinishingFacts(g, graph, st);
    OpenReaches(g, st, TopNode(st), z);
    assert ReachesOpen(g, st, z);
    var x: nat :| Open(st, x) && Visited(st, x) && Index(st, x) <= Index(st, z) && Reaches(g, z, x);
    AboveReachesNode(g, graph, st, z, x);
    OpenStacked(g, graph, st, x);
  }

  lemma AboveReachesNode(g: Grammar, graph: Graph, st: Search, z: nat, y: nat)
    requires Invariant(g, graph, st) && Closing(graph, st) && Above(st, st.frames[|st.frames| - 1].node, z)
    requires Reaches(g, z, y)
    ensures Closed(st, y) || Above(st, st.frames[|st.frames| - 1].node, y)
  {
    hide Invariant, Closing, Above;
    var path: seq<nat> :| PathFor(g, path) && path[0] == z && path[|path| - 1] == y;
    ClosingVisited(graph, st);
    AboveReaches(g, graph, st, path);
  }

  lemma ClosedReachesNode(g: Grammar, graph: Graph, st: Search, z: nat, y: nat)
    requires GraphFor(g, graph) && Sized(|graph|, st) && EdgesSeen(graph, st) && Closed(st, z) && Reaches(g, z, y)
    ensures Closed(st, y)
  {
    hide GraphFor, EdgesSeen;
    var path: seq<nat> :| PathFor(g, path) && path[0] == z && path[|path| - 1] == y;
    ClosedReaches(g, graph, st, path);
  }

  lemma OpenStacked(g: Grammar, graph: Graph, st: Search, x: nat)
    requires Invariant(g, graph, st) && Open(st, x)
    ensures Stacked(st, x)
  {
    hide StackOrdered, EdgesSeen, OpenReach, ReachOpen, LowWitnessed, LowBounds, ComponentsExact, GraphFor, InRange;
    var i: nat :| i < |st.frames| && st.frames[i].node == x;
    FrameKnown(graph, st, i);
  }

  // What is closed is a strongly connected component.
  lemma ClosedIsScc(g: Grammar, graph: Graph, st: Search, st': Search, members: seq<nat>)
    requires ClosingStep(g, graph, st, st', members)
    ensures IsScc(g, members)
  {
    hide Invariant, StackOrdered, FramesOrdered, OpenReach, ReachOpen, LowWitnessed, LowBounds, ComponentsExact,
      GraphFor, LowFrom, Closing, Open, Reaches, EdgesSeen;
    CloseFacts(g, graph, st, st', members);
    FinishingFacts(g, graph, st);
    var top := TopNode(st);
    assert forall x: nat :: x in members <==> Above(st, top, x);
    assert forall i, j :: 0 <= i < j < |members| ==> members[i] < members[j];
    assert Above(st, top, top);
    hide ClosingStep;
    forall x <- members ensures x < g.nonterminals {
      StackedLow(g, graph, st, x);
      GraphSize(g, graph);
    }
    forall x: nat, y: nat | x in members && y < g.nonterminals
      ensures y in members <==> Reaches(g, x, y) && Reaches(g, y, x)
    {
      AboveConnected(g, graph, st, st', members, x);
      if y in members {
        AboveConnected(g, graph, st, st', members, y);
        ReachesTransitive(g, x, top, y);
        ReachesTransitive(g, y, top, x);
      }
      if Reaches(g, x, y) && Reaches(g, y, x) {
        AboveReachesNode(g, graph, st, x, y);
        if Closed(st, y) {
          ClosedReachesNode(g, graph, st, y, x);
        }
      }
    }
  }

  lemma GraphSize(g: Grammar, graph: Graph)
    requires GraphFor(g, graph)
    ensures |graph| == g.nonterminals
  {
  }

  lemma CloseComponents(g: Grammar, graph: Graph, st: Search, st': Search, members: seq<nat>)
    requires ClosingStep(g, graph, st, st', members)
    ensures ComponentsExact(g, st')
  {
    hide Invariant, StackOrdered, FramesOrdered, EdgesSeen, OpenReach, ReachOpen, LowWitnessed, LowBounds, GraphFor,
      LowFrom, Closing, Open, IsScc, ComponentsExact;
    ClosedIsScc(g, graph, st, st', members);
    CloseFacts(g, graph, st, st', members);
    FinishingFacts(g, graph, st);
    assert st'.components == st.components + [members] && forall x: nat :: x in members <==> Above(st, TopNode(st), x);
    assert forall x: nat :: Above(st, TopNode(st), x) ==> !Closed(st, x);
    ComponentsGrow(g, st, st', members);
  }

  lemma ComponentsGrow(g: Grammar, st: Search, st': Search, members: seq<nat>)
    requires ComponentsExact(g, st) && IsScc(g, members) && st'.components == st.components + [members]
    requires forall x: nat :: Closed(st', x) <==> Closed(st, x) || x in members
    requires forall x <- members :: !Closed(st, x)
    ensures ComponentsExact(g, st')
  {
    hide Closed, IsScc;
    forall x: nat ensures Closed(st', x) <==> exists c :: 0 <= c < |st'.components| && x in st'.components[c] {
      if Closed(st, x) {
        var c :| 0 <= c < |st.components| && x in st.components[c];
        assert x in st'.components[c];
      } else if x in members {
        assert x in st'.components[|st.components|];
      }
    }
    forall c, d | 0 <= c < d < |st'.components| ensures forall x :: x in st'.components[c] ==> x !in st'.components[d] {
      if d == |st.components| {
        assert forall x: nat :: x in st.components[c] ==> Closed(st, x);
      }
    }
  }

  lemma CloseKeeps(g: Grammar, graph: Graph, st: Search, st': Search, members: seq<nat>)
    requires ClosingStep(g, graph, st, st', members)
    ensures Invariant(g, graph, st')
  {
    hide StackOrdered, FramesOrdered, EdgesSeen, OpenReach, ReachOpen, LowWitnessed, LowBounds, ComponentsExact,
      GraphFor, InRange;
    CloseStack(g, graph, st, st', members);
    CloseFrames(g, graph, st, st', members);
    CloseEdges(g, graph, st, st', members);
    CloseReach(g, graph, st, st', members);
    CloseLow(g, graph, st, st', members);
    CloseBounds(g, graph, st, st', members);
    CloseComponents(g, graph, st, st', members);
  }
}
