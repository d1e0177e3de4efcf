/**
 The strongly connected components of the dependency graph, found by the iterative search of `Tarjan`.
 */
module Sccs {
  import opened Grammars
  import opened SchemaGrammars
  import opened Tarjan
  import opened TarjanSteps
  import opened TarjanClosing

  // ---------- Sorted lists of nodes ----------

  ghost predicate Ascending(nodes: seq<nat>) {
    forall i, j :: 0 <= i < j < |nodes| ==> nodes[i] < nodes[j]
  }

  function InsertNode(node: nat, nodes: seq<nat>): (r: seq<nat>)
    ensures forall x :: x in r <==> x == node || x in nodes
    ensures Ascending(nodes) ==> Ascending(r)
  {
    if nodes == [] then [node]
    else if node == nodes[0] then nodes
    else if node < nodes[0] then [node] + nodes
    else
      var rest := InsertNode(node, nodes[1..]);
      assert forall x :: x in nodes <==> x == nodes[0] || x in nodes[1..];
      assert Ascending(nodes) ==> forall k :: 0 <= k < |rest| ==> rest[k] in rest && nodes[0] < rest[k];
      [nodes[0]] + rest
  }

  // Sorted, without duplicates.
  function SortNodes(nodes: seq<nat>): (r: seq<nat>)
    ensures forall x :: x in r <==> x in nodes
    ensures Ascending(r)
  {
    if nodes == [] then [] else InsertNode(nodes[0], SortNodes(nodes[1..]))
  }

  // ---------- The graph ----------

  function Mentioned(rhs: seq<Symbol>): (r: seq<nat>)
    ensures forall n: nat :: n in r <==> Nonterminal(n) in rhs
  {
    if rhs == [] then []
    else
      var rest := Mentioned(rhs[1..]);
      assert forall s :: s in rhs <==> s == rhs[0] || s in rhs[1..];
      match rhs[0]
      case Nonterminal(n) => [n] + rest
      case Terminal(_) => rest
  }

  // The edges of the first `upto` productions.
  ghost predicate GraphUpto(g: Grammar, graph: Graph, upto: nat)
    requires upto <= |g.productions|
  {
    |graph| == g.nonterminals
    && forall a: nat, b: nat {:trigger b in graph[a]} :: a < |graph| ==>
         (b in graph[a] <==>
           exists p: nat :: p < upto && g.productions[p].lhs == a && Nonterminal(b) in g.productions[p].rhs)
  }

  method DependencyGraph(g: Grammar) returns (graph: Graph)
    requires InRange(g)
    ensures GraphFor(g, graph) && forall row <- graph :: Ascending(row)
  {
    graph := seq(g.nonterminals, _ => []);
    for p := 0 to |g.productions|
      invariant GraphUpto(g, graph, p)
    {
      ProductionKnown(g, p);
      var lhs, targets := g.productions[p].lhs, Mentioned(g.productions[p].rhs);
      graph := graph[lhs := graph[lhs] + targets];
    }
    var edges := graph;
    for a := 0 to |edges|
      invariant |graph| == |edges|
      invariant forall k: nat, b: nat {:trigger b in graph[k]} :: k < |edges| ==> (b in graph[k] <==> b in edges[k])
      invariant forall k :: 0 <= k < a ==> Ascending(graph[k])
    {
      graph := graph[a := SortNodes(graph[a])];
    }
    GraphComplete(g, edges, graph);
  }

  lemma GraphComplete(g: Grammar, edges: Graph, graph: Graph)
    requires InRange(g) && GraphUpto(g, edges, |g.productions|) && |graph| == |edges|
    requires forall k: nat, b: nat {:trigger b in graph[k]} :: k < |edges| ==> (b in graph[k] <==> b in edges[k])
    ensures GraphFor(g, graph)
  {
    forall a: nat, b: nat | a < |graph| ensures b in graph[a] <==> DependsOn(g, a, b) {
      assert b in graph[a] <==> b in edges[a];
    }
    forall a: nat, k: nat | a < |graph| && k < |graph[a]| ensures graph[a][k] < |graph| {
      assert graph[a][k] in graph[a];
      assert DependsOn(g, a, graph[a][k]);
      var p: nat :| p < |g.productions| && g.productions[p].lhs == a
        && Nonterminal(graph[a][k]) in g.productions[p].rhs;
      ProductionKnown(g, p);
    }
  }

  // ---------- The search ----------

  function Start(n: nat): Search {
    Search(0, seq(n, _ => None), seq(n, _ => 0), seq(n, _ => false), [], [], [])
  }

  lemma StartHolds(g: Grammar, graph: Graph)
    requires InRange(g) && GraphFor(g, graph)
    ensures Invariant(g, graph, Start(|graph|))
  {
    hide Reaches, InRange, GraphFor;
  }

  lemma StackedNeedsOpen(g: Grammar, graph: Graph, st: Search, x: nat)
    requires Invariant(g, graph, st)
    ensures Stacked(st, x) ==> st.frames != []
  {
    hide StackOrdered, FramesOrdered, EdgesSeen, OpenReach, LowWitnessed, LowBounds, ComponentsExact, GraphFor,
      InRange, Reaches;
    if Stacked(st, x) {
      StackMember(st, x);
      assert ReachesOpen(g, st, x);
      var y: nat :| Open(st, y) && Visited(st, y) && Index(st, y) <= Index(st, x) && Reaches(g, x, y);
    }
  }

  // With no open node nothing is left on the stack.
  lemma NothingOpen(g: Grammar, graph: Graph, st: Search)
    requires Invariant(g, graph, st) && st.frames == []
    ensures forall x: nat :: !Stacked(st, x)
  {
    hide Invariant;
    forall x: nat ensures !Stacked(st, x) {
      StackedNeedsOpen(g, graph, st, x);
    }
  }

  function Remaining(graph: Graph, frames: seq<Frame>): int {
    if frames == [] then 0
    else
      var f := frames[|frames| - 1];
      Remaining(graph, frames[..|frames| - 1]) + if f.node < |graph| then |graph[f.node]| - f.edge else 0
  }

  ghost function Unvisited(st: Search): set<nat> {
    set x: nat | x < |st.indices| && st.indices[x].None?
  }

  lemma {:induction false} RemainingBound(graph: Graph, frames: seq<Frame>)
    requires forall f <- frames :: f.node < |graph| && f.edge <= |graph[f.node]|
    ensures Remaining(graph, frames) >= 0
    decreases |frames|
  {
    if frames != [] {
      assert frames[|frames| - 1] in frames && forall f <- frames[..|frames| - 1] :: f in frames;
      RemainingBound(graph, frames[..|frames| - 1]);
    }
  }

  lemma RemainingAdvanced(graph: Graph, frames: seq<Frame>)
    requires frames != [] && frames[|frames| - 1].node < |graph|
    ensures Remaining(graph, Advanced(frames)) == Remaining(graph, frames) - 1
  {
    assert Advanced(frames)[..|frames| - 1] == frames[..|frames| - 1];
  }

  lemma RemainingFinished(graph: Graph, st: Search)
    requires st.frames != [] && Finished(graph, st)
    ensures Remaining(graph, st.frames[..|st.frames| - 1]) == Remaining(graph, st.frames)
  {
  }

  // The nodes from the closing one up are the ones above it.
  lemma StackAbove(st: Search, pos: nat, x: nat)
    requires StackOrdered(st) && pos < |st.stack| && Visited(st, st.stack[pos])
    ensures Above(st, st.stack[pos], x) <==> x in st.stack[pos..]
    ensures (x in st.stack[..pos] || x in st.stack[pos..] <==> Stacked(st, x))
    ensures !(x in st.stack[..pos] && x in st.stack[pos..])
  {
    hide Visited, Stacked, Index, StackOrdered;
    StackMember(st, x);
    assert st.stack == st.stack[..pos] + st.stack[pos..];
    if x in st.stack {
      var k: nat :| k < |st.stack| && st.stack[k] == x;
      if k < pos {
        assert x == st.stack[..pos][k];
        StackPair(st, k, pos);
        forall j: nat | pos <= j < |st.stack| ensures st.stack[j] != x {
          StackPair(st, k, j);
        }
      } else {
        assert x == st.stack[pos..][k - pos];
        if k > pos {
          StackPair(st, pos, k);
        }
        forall j: nat | j < pos ensures st.stack[j] != x {
          StackPair(st, j, k);
        }
      }
    }
  }

  lemma OneBelow(s: seq<nat>, k: nat, x: nat)
    requires k < |s|
    ensures x in s[k..] <==> x == s[k] || x in s[k + 1..]
  {
    assert s[k..] == [s[k]] + s[k + 1..];
  }

  // The top of a prefix of the stack is on the stack, inside the marks.
  lemma TopStacked(graph: Graph, st: Search, k: nat)
    requires StackOrdered(st) && Sized(|graph|, st) && k < |st.stack|
    ensures st.stack[k] < |st.onStack|
  {
    StackMember(st, st.stack[k]);
    StackedIs(graph, st);
  }

  // What popping down to height `k` leaves: the members taken, and the marks that remain.
  ghost predicate Popped(st: Search, k: nat, members: seq<nat>, onStack: seq<bool>)
    requires k <= |st.stack|
  {
    && |onStack| == |st.onStack|
    && (forall x: nat :: x in members <==> x in st.stack[k..])
    && (forall x: nat :: (x < |onStack| && onStack[x]) <==> Stacked(st, x) && x !in st.stack[k..])
  }

  lemma PopOne(st: Search, k: nat, members: seq<nat>, onStack: seq<bool>)
    requires k < |st.stack| && Popped(st, k + 1, members, onStack) && st.stack[k] < |onStack|
    ensures Popped(st, k, members + [st.stack[k]], onStack[st.stack[k] := false])
  {
    hide Stacked;
    var member := st.stack[k];
    var more, marks := members + [member], onStack[member := false];
    forall x: nat
      ensures x in more <==> x in st.stack[k..]
      ensures (x < |marks| && marks[x]) <==> Stacked(st, x) && x !in st.stack[k..]
    {
      OneBelow(st.stack, k, x);
      assert x in more <==> x in members || x == member;
    }
  }

  lemma NothingPopped(graph: Graph, st: Search)
    requires Sized(|graph|, st)
    ensures Popped(st, |st.stack|, [], st.onStack)
  {
    StackedIs(graph, st);
  }

  lemma AllPopped(st: Search, pos: nat, members: seq<nat>, onStack: seq<bool>, x: nat)
    requires StackOrdered(st) && pos < |st.stack| && Visited(st, st.stack[pos]) && Popped(st, pos, members, onStack)
    ensures x in members <==> Above(st, st.stack[pos], x)
    ensures (x < |onStack| && onStack[x]) <==> Stacked(st, x) && !Above(st, st.stack[pos], x)
    ensures x in st.stack[..pos] <==> Stacked(st, x) && !Above(st, st.stack[pos], x)
  {
    hide StackOrdered, Visited, Stacked, Above;
    StackAbove(st, pos, x);
  }

  // Pop the stack down to `completed`; it is there, so the stack never runs empty first.
  method PopComponent(graph: Graph, st: Search, completed: nat)
      returns (members: seq<nat>, stack: seq<nat>, onStack: seq<bool>)
    requires StackOrdered(st) && Sized(|graph|, st) && Stacked(st, completed) && Visited(st, completed)
    ensures stack <= st.stack && |onStack| == |st.onStack|
    ensures forall x: nat :: x in members <==> Above(st, completed, x)
    ensures forall x: nat :: (x < |onStack| && onStack[x]) <==> Stacked(st, x) && !Above(st, completed, x)
    ensures forall x: nat :: x in stack <==> Stacked(st, x) && !Above(st, completed, x)
  {
    hide *;
    StackMember(st, completed);
    ghost var pos: nat :| pos < |st.stack| && st.stack[pos] == completed;
    members, stack, onStack := [], st.stack, st.onStack;
    NothingPopped(graph, st);
    PoppedSize(st, |stack|, members, onStack);
    while true
      invariant pos < |stack| <= |st.stack| && stack == st.stack[..|stack|] && |onStack| == |st.onStack|
      invariant Popped(st, |stack|, members, onStack)
      decreases |stack|
    {
      var member := stack[|stack| - 1];
      TopStacked(graph, st, |stack| - 1);
      PopOne(st, |stack| - 1, members, onStack);
      stack := stack[..|stack| - 1];
      onStack := onStack[member := false];
      members := members + [member];
      if member == completed {
        SamePosition(st, pos, |stack|);
        break;
      }
    }
    forall x: nat
      ensures x in members <==> Above(st, completed, x)
      ensures (x < |onStack| && onStack[x]) <==> Stacked(st, x) && !Above(st, completed, x)
      ensures x in stack <==> Stacked(st, x) && !Above(st, completed, x)
    {
      AllPopped(st, pos, members, onStack, x);
    }
  }

  lemma PoppedSize(st: Search, k: nat, members: seq<nat>, onStack: seq<bool>)
    requires k <= |st.stack| && Popped(st, k, members, onStack)
    ensures |onStack| == |st.onStack|
  {
  }

  lemma StackedIs(graph: Graph, st: Search)
    requires Sized(|graph|, st)
    ensures forall x: nat :: Stacked(st, x) <==> x < |st.onStack| && st.onStack[x]
  {
  }

  lemma SamePosition(st: Search, i: nat, j: nat)
    requires StackOrdered(st) && i < |st.stack| && j < |st.stack| && st.stack[i] == st.stack[j]
    ensures i == j
  {
    if i < j {
      StackPair(st, i, j);
    } else if j < i {
      StackPair(st, j, i);
    }
  }

  // Leave the finished node: pop its frame, pass its low link to the parent, and close its component if the
  // low link is its own index.
  method Leave(g: Grammar, graph: Graph, st: Search) returns (next: Search)
    requires Finishing(g, graph, st)
    ensures Invariant(g, graph, next) && next.indices == st.indices && next.frames == st.frames[..|st.frames| - 1]
  {
    hide Invariant, Finishing, StackOrdered, FramesOrdered, EdgesSeen, OpenReach, ReachOpen, LowWitnessed, LowBounds,
      ComponentsExact, GraphFor, LowFrom, Open, IsScc;
    FinishingFacts(g, graph, st);
    var completed := TopNode(st);
    LowBelow(g, st, completed);
    next := Retreat(st);
    if st.lowlink[completed] == Index(st, completed) {
      var members, stack, onStack := PopComponent(graph, st, completed);
      assert FinishedFacts(graph, st) by { FinishedHere(g, graph, st); }
      ParentKeepsLow(g, graph, st);
      next := next.(stack := stack, onStack := onStack, components := next.components + [SortNodes(members)]);
      assert ClosedBy(st, next, SortNodes(members));
      CloseKeeps(g, graph, st, next, SortNodes(members));
    } else {
      RetreatKeeps(g, graph, st);
    }
  }

  ghost predicate FinishedFacts(graph: Graph, st: Search) {
    st.frames != [] && Finished(graph, st)
  }

  lemma FinishedHere(g: Grammar, graph: Graph, st: Search)
    requires Finishing(g, graph, st)
    ensures FinishedFacts(graph, st)
  {
    hide Invariant;
  }

  // A parent's low link is already below the index of a closing child.
  lemma ParentKeepsLow(g: Grammar, graph: Graph, st: Search)
    requires Finishing(g, graph, st) && FramesSized(st) && st.frames != [] && Visited(st, TopNode(st))
    requires st.lowlink[TopNode(st)] == Index(st, TopNode(st))
    ensures Retreat(st).lowlink == st.lowlink
  {
    hide Invariant, Finishing, StackOrdered, FramesOrdered, EdgesSeen, OpenReach, ReachOpen, LowWitnessed, LowBounds,
      ComponentsExact, GraphFor, LowFrom, Open;
    FinishingFacts(g, graph, st);
    if |st.frames| > 1 {
      var parent := st.frames[|st.frames| - 2].node;
      FrameKnown(graph, st, |st.frames| - 2);
      FrameBelowTop(graph, st, |st.frames| - 2);
      StackedLow(g, graph, st, parent);
      LowBelow(g, st, parent);
    }
  }

  // Explore everything reachable from one root; the frame stack is empty before and after.
  method Explore(g: Grammar, graph: Graph, st: Search, root: nat) returns (next: Search)
    requires Invariant(g, graph, st) && st.frames == [] && root < |graph| && |st.indices| == |graph|
    requires !Visited(st, root)
    ensures Invariant(g, graph, next) && next.frames == [] && |next.indices| == |graph|
    ensures Visited(next, root) && forall x: nat :: Visited(st, x) ==> Visited(next, x)
  {
    hide Invariant, Visited, NextEdge;
    SizesOf(g, graph, st);
    IndexedVisited(st, root);
    EnteringFrom(g, graph, st, root);
    EnterKeeps(g, graph, st, root);
    EnterVisits(g, graph, st, root);
    next := Enter(st, root);
    while next.frames != []
      invariant Invariant(g, graph, next) && |next.indices| == |graph|
      invariant Visited(next, root) && forall x: nat :: Visited(st, x) ==> Visited(next, x)
      decreases Unvisited(next), Remaining(graph, next.frames), |next.frames|
    {
      SizesOf(g, graph, next);
      FramesBounded(g, graph, next);
      var f := next.frames[|next.frames| - 1];
      ghost var before := next;
      if f.edge < |graph[f.node]| {
        var target := graph[f.node][f.edge];
        assert NextEdge(graph, next, target) by { NextEdgeIs(graph, next); }
        NextEdgeFacts(g, graph, next, target);
        IndexedVisited(next, target);
        if next.indices[target].None? {
          EnteringFrom(g, graph, next, target);
          EnterKeeps(g, graph, next, target);
          EnterVisits(g, graph, next, target);
          next := Enter(next, target);
        } else {
          LookAtKeeps(g, graph, next, target);
          RemainingAdvanced(graph, next.frames);
          next := LookAt(next, target);
          SameVisited(before, next);
        }
      } else {
        RemainingFinished(graph, next);
        next := Leave(g, graph, next);
        SameVisited(before, next);
      }
    }
  }

  lemma EnteringFrom(g: Grammar, graph: Graph, st: Search, node: nat)
    requires Invariant(g, graph, st) && node < |graph| && !Visited(st, node)
    requires (st.frames == [] || NextEdge(graph, st, node))
    ensures Entering(g, graph, st, node)
  {
    SizesOf(g, graph, st);
    hide Invariant, Visited, NextEdge;
  }

  lemma NextEdgeIs(graph: Graph, st: Search)
    requires st.frames != [] && var f := st.frames[|st.frames| - 1]; f.node < |graph| && f.edge < |graph[f.node]|
    ensures var f := st.frames[|st.frames| - 1]; NextEdge(graph, st, graph[f.node][f.edge])
  {
  }

  lemma IndexedVisited(st: Search, x: nat)
    requires x < |st.indices|
    ensures Visited(st, x) <==> st.indices[x].Some?
  {
  }

  lemma SameVisited(st: Search, st': Search)
    requires st.indices == st'.indices
    ensures Unvisited(st) == Unvisited(st') && forall x: nat :: Visited(st, x) <==> Visited(st', x)
  {
  }

  lemma SizesOf(g: Grammar, graph: Graph, st: Search)
    requires Invariant(g, graph, st)
    ensures |st.indices| == |st.lowlink| == |st.onStack| == |graph|
  {
  }

  // The frames stay within the graph.
  lemma FramesBounded(g: Grammar, graph: Graph, st: Search)
    requires Invariant(g, graph, st) && st.frames != []
    ensures var f := st.frames[|st.frames| - 1]; f.node < |graph| && f.edge <= |graph[f.node]|
    ensures Remaining(graph, st.frames) >= 0
  {
    hide StackOrdered, EdgesSeen, OpenReach, ReachOpen, LowWitnessed, LowBounds, ComponentsExact, GraphFor, InRange;
    FrameKnown(graph, st, |st.frames| - 1);
    forall f <- st.frames ensures f.node < |graph| && f.edge <= |graph[f.node]| {
    }
    RemainingBound(graph, st.frames);
  }

  lemma EnterVisits(g: Grammar, graph: Graph, st: Search, node: nat)
    requires node < |st.indices| == |st.lowlink| == |st.onStack| && st.indices[node].None?
    ensures forall x: nat :: Visited(Enter(st, node), x) <==> Visited(st, x) || x == node
    ensures Unvisited(Enter(st, node)) < Unvisited(st)
  {
    assert node in Unvisited(st) && node !in Unvisited(Enter(st, node));
  }

  // Search from every node; every node ends up in exactly one closed component.
  method FindComponents(g: Grammar, graph: Graph) returns (components: seq<seq<nat>>)
    requires InRange(g) && GraphFor(g, graph)
    ensures Complete(g, components)
  {
    hide Invariant, Visited, GraphFor;
    StartHolds(g, graph);
    var st := Start(|graph|);
    for root := 0 to |graph|
      invariant Invariant(g, graph, st) && st.frames == [] && |st.indices| == |graph|
      invariant forall x: nat :: x < root ==> Visited(st, x)
    {
      IndexedVisited(st, root);
      if st.indices[root].None? {
        st := Explore(g, graph, st, root);
      }
    }
    AllClosed(g, graph, st);
    components := st.components;
  }

  // Every nonterminal is in exactly one component, and the components are strongly connected.
  ghost predicate Complete(g: Grammar, components: seq<seq<nat>>) {
    && (forall x: nat :: x < g.nonterminals ==> Covered(components, x))
    && (forall c: nat :: c < |components| ==> IsScc(g, components[c]))
    && Disjoint(components)
  }

  ghost predicate Covered(components: seq<seq<nat>>, x: nat) {
    exists c: nat :: c < |components| && x in components[c]
  }

  ghost predicate Disjoint(components: seq<seq<nat>>) {
    forall c, d :: 0 <= c < d < |components| ==> forall x :: x in components[c] ==> x !in components[d]
  }

  lemma AllClosed(g: Grammar, graph: Graph, st: Search)
    requires Invariant(g, graph, st) && st.frames == [] && forall x: nat :: x < |graph| ==> Visited(st, x)
    ensures Complete(g, st.components)
  {
    hide StackOrdered, FramesOrdered, EdgesSeen, OpenReach, ReachOpen, LowWitnessed, LowBounds, InRange, IsScc;
    NothingOpen(g, graph, st);
    forall x: nat | x < g.nonterminals ensures Covered(st.components, x) {
      assert Visited(st, x) && !Stacked(st, x);
      assert Closed(st, x);
    }
  }

  // ---------- The report ----------

  function InsertComponent(members: seq<nat>, components: seq<seq<nat>>): (r: seq<seq<nat>>)
    requires members != [] && forall d <- components :: d != []
    ensures forall d :: d in r <==> d == members || d in components
    ensures |r| == |components| + 1
    ensures forall d <- r :: d != []
  {
    if components == [] then [members]
    else
      assert components[0] in components;
      if members[0] <= components[0][0] then [members] + components
    else
      assert forall d :: d in components <==> d == components[0] || d in components[1..];
      var rest := InsertComponent(members, components[1..]);
      [components[0]] + rest
  }

  lemma {:induction false} InsertDisjoint(members: seq<nat>, components: seq<seq<nat>>)
    requires members != [] && (forall d <- components :: d != []) && Disjoint(components)
    requires forall d <- components, x <- members :: x !in d
    ensures Disjoint(InsertComponent(members, components))
    decreases |components|
  {
    assert components != [] ==> components[0] in components;
    if components != [] && members[0] > components[0][0] {
      assert forall d <- components[1..] :: d in components;
      InsertDisjoint(members, components[1..]);
      var rest := InsertComponent(members, components[1..]);
      forall d <- rest ensures forall x :: x in components[0] ==> x !in d {
        if d in components[1..] {
          var k :| 0 <= k < |components[1..]| && components[1..][k] == d;
          assert components[k + 1] == d;
        }
      }
      HeadDisjoint(components[0], rest);
    } else {
      forall d <- components ensures forall x :: x in members ==> x !in d {
      }
      HeadDisjoint(members, components);
    }
  }

  lemma HeadDisjoint(first: seq<nat>, rest: seq<seq<nat>>)
    requires Disjoint(rest) && forall d <- rest :: forall x :: x in first ==> x !in d
    ensures Disjoint([first] + rest)
  {
    var all := [first] + rest;
    forall c, d | 0 <= c < d < |all| ensures forall x :: x in all[c] ==> x !in all[d] {
      assert all[d] == rest[d - 1] && rest[d - 1] in rest;
      if c > 0 {
        assert all[c] == rest[c - 1];
      }
    }
  }

  method SortComponents(g: Grammar, components: seq<seq<nat>>) returns (sorted: seq<seq<nat>>)
    requires Complete(g, components)
    ensures Complete(g, sorted)
  {
    hide IsScc;
    assert forall c: nat :: c < |components| ==> IsScc(g, components[c]);
    SccNonempty(g, components);
    sorted := [];
    for c := 0 to |components|
      invariant (forall d <- sorted :: d != []) && Disjoint(sorted)
      invariant forall d :: d in sorted <==> d in components[..c]
    {
      forall d <- sorted, x <- components[c] ensures x !in d {
        var k :| 0 <= k < c && components[k] == d;
      }
      InsertDisjoint(components[c], sorted);
      sorted := InsertComponent(components[c], sorted);
      assert components[..c + 1] == components[..c] + [components[c]];
    }
    assert components[..|components|] == components;
    SameComplete(g, components, sorted);
  }

  lemma SccNonempty(g: Grammar, components: seq<seq<nat>>)
    requires forall c: nat :: c < |components| ==> IsScc(g, components[c])
    ensures forall c: nat :: c < |components| ==> components[c] != []
  {
  }

  lemma SameComplete(g: Grammar, components: seq<seq<nat>>, sorted: seq<seq<nat>>)
    requires Complete(g, components) && Disjoint(sorted) && forall d :: d in sorted <==> d in components
    ensures Complete(g, sorted)
  {
    hide IsScc, Disjoint;
    forall x: nat | x < g.nonterminals ensures Covered(sorted, x) {
      assert Covered(components, x);
      var c: nat :| c < |components| && x in components[c];
      assert components[c] in sorted;
      var k: nat :| k < |sorted| && sorted[k] == components[c];
      assert x in sorted[k];
    }
    forall c: nat | c < |sorted| ensures IsScc(g, sorted[c]) {
      assert sorted[c] in components;
      var k: nat :| k < |components| && components[k] == sorted[c];
      assert IsScc(g, components[k]);
    }
  }

  // Which component each nonterminal is in.
  method ComponentTable(g: Grammar, components: seq<seq<nat>>) returns (componentOf: seq<nat>)
    requires Complete(g, components)
    ensures |componentOf| == g.nonterminals
    ensures forall x: nat, c: nat {:trigger x in components[c]} :: x < g.nonterminals && c < |components| ==>
              (x in components[c] <==> componentOf[x] == c)
    ensures forall x: nat :: x < g.nonterminals ==> componentOf[x] < |components|
  {
    hide IsScc;
    componentOf := seq(g.nonterminals, _ => 0);
    for c := 0 to |components|
      invariant |componentOf| == g.nonterminals
      invariant forall x: nat, d: nat {:trigger x in components[d]} ::
                  x < g.nonterminals && d < c && x in components[d] ==> componentOf[x] == d
    {
      MembersKnown(g, components, c);
      for i := 0 to |components[c]|
        invariant |componentOf| == g.nonterminals
        invariant forall x: nat, d: nat {:trigger x in components[d]} ::
                    x < g.nonterminals && d < c && x in components[d] ==> componentOf[x] == d
        invariant forall k: nat :: k < i ==> componentOf[components[c][k]] == c
      {
        OnlyHere(components, c, components[c][i]);
        componentOf := componentOf[components[c][i] := c];
      }
    }
    forall x: nat, c: nat | x < g.nonterminals && c < |components| ensures x in components[c] <==> componentOf[x] == c {
      assert Covered(components, x);
      var d: nat :| d < |components| && x in components[d];
    }
    forall x: nat | x < g.nonterminals ensures componentOf[x] < |components| {
      assert Covered(components, x);
      var d: nat :| d < |components| && x in components[d];
    }
  }

  lemma MembersKnown(g: Grammar, components: seq<seq<nat>>, c: nat)
    requires Complete(g, components) && c < |components|
    ensures forall i: nat :: i < |components[c]| ==> components[c][i] < g.nonterminals
    ensures forall i, j :: 0 <= i < j < |components[c]| ==> components[c][i] != components[c][j]
  {
    assert IsScc(g, components[c]);
    forall i: nat | i < |components[c]| ensures components[c][i] < g.nonterminals {
      assert components[c][i] in components[c];
    }
  }

  lemma OnlyHere(components: seq<seq<nat>>, c: nat, x: nat)
    requires Disjoint(components) && c < |components| && x in components[c]
    ensures forall d: nat :: d < c ==> x !in components[d]
  {
  }

  // A member is on a cycle exactly when the component has another member or the member mentions itself.
  lemma CycleIff(g: Grammar, members: seq<nat>)
    requires InRange(g) && IsScc(g, members)
    ensures OnCycle(g, members) <==> |members| > 1 || (|members| == 1 && DependsOn(g, members[0], members[0]))
  {
    hide DependsOn;
    if OnCycle(g, members) && |members| == 1 {
      var m: nat, n: nat :| m in members && DependsOn(g, m, n) && Reaches(g, n, m);
      ReachesStep(g, m, n);
      ReachesInRange(g, m, n);
      assert n in members;
    }
    if |members| > 1 {
      assert members[0] in members && members[1] in members && members[0] != members[1];
      LeavesFor(g, members[0], members[1]);
    }
    if |members| == 1 && DependsOn(g, members[0], members[0]) {
      assert members[0] in members;
      ReachesItself(g, members[0]);
    }
  }

  lemma LeavesFor(g: Grammar, a: nat, b: nat)
    requires a != b && Reaches(g, a, b) && Reaches(g, b, a)
    ensures exists n: nat :: DependsOn(g, a, n) && Reaches(g, n, a)
  {
    hide DependsOn;
    var path: seq<nat> :| PathFor(g, path) && path[0] == a && path[|path| - 1] == b;
    var n := path[1];
    var rest := path[1..];
    forall i | 0 < i < |rest| ensures DependsOn(g, rest[i - 1], rest[i]) {
      assert rest[i] == path[i + 1] && rest[i - 1] == path[i];
    }
    assert PathFor(g, rest) && rest[0] == n && rest[|rest| - 1] == b;
    assert DependsOn(g, path[0], path[1]);
    ReachesTransitive(g, n, b, a);
  }

  // The analysis: the components are exactly the strongly connected ones, and the search reports no error.
  method AnalyzeSccs(g: Grammar) returns (analysis: SccAnalysis)
    requires InRange(g)
    ensures Partitions(g, analysis) && StronglyConnected(g, analysis) && MarkedRecursive(g, analysis)
  {
    hide IsScc, GraphFor, Complete, InRange, DependsOn;
    var graph := DependencyGraph(g);
    var components := FindComponents(g, graph);
    components := SortComponents(g, components);
    var componentOf := ComponentTable(g, components);
    var reports: seq<Scc> := [];
    for c := 0 to |components|
      invariant |reports| == c
      invariant forall k: nat {:trigger reports[k]} :: k < c ==> ReportFor(g, components, reports[k], k)
    {
      var members := components[c];
      ReportFacts(g, graph, components, c);
      var recursive := |members| > 1 || members[0] in graph[members[0]];
      reports := reports + [Scc(c, members, recursive)];
    }
    analysis := SccAnalysis(reports, componentOf);
    Reported(g, components, analysis);
  }

  ghost predicate ReportFor(g: Grammar, components: seq<seq<nat>>, report: Scc, c: nat) {
    c < |components| && report.id == c && report.members == components[c]
    && (report.recursive <==>
       |report.members| > 1 || (|report.members| == 1 && DependsOn(g, report.members[0], report.members[0])))
  }

  lemma ReportFacts(g: Grammar, graph: Graph, components: seq<seq<nat>>, c: nat)
    requires Complete(g, components) && c < |components| && GraphFor(g, graph)
    ensures components[c] != [] && components[c][0] < |graph|
    ensures components[c][0] in graph[components[c][0]] <==> DependsOn(g, components[c][0], components[c][0])
  {
    hide DependsOn;
    assert IsScc(g, components[c]);
    assert components[c][0] in components[c];
  }

  lemma Reported(g: Grammar, components: seq<seq<nat>>, analysis: SccAnalysis)
    requires InRange(g) && Complete(g, components) && |analysis.components| == |components|
    requires |analysis.componentOf| == g.nonterminals
    requires forall k: nat {:trigger analysis.components[k]} :: k < |components| ==>
               ReportFor(g, components, analysis.components[k], k)
    requires forall x: nat, c: nat {:trigger x in components[c]} :: x < g.nonterminals && c < |components| ==>
               (x in components[c] <==> analysis.componentOf[x] == c)
    requires forall x: nat :: x < g.nonterminals ==> analysis.componentOf[x] < |components|
    ensures Partitions(g, analysis) && StronglyConnected(g, analysis)
  {
    hide DependsOn, Reaches, InRange, IsScc, OnCycle, ReportFor;
    forall c: nat | c < |components|
      ensures IsScc(g, components[c]) && ReportFor(g, components, analysis.components[c], c)
    {
    }
    ReportedPartitions(g, components, analysis);
    forall m: nat, n: nat | m < g.nonterminals && n < g.nonterminals
      ensures analysis.componentOf[m] == analysis.componentOf[n] <==> Reaches(g, m, n) && Reaches(g, n, m)
    {
      var c := analysis.componentOf[m];
      assert m in components[c] && (n in components[c] <==> analysis.componentOf[n] == c);
      SccPair(g, components[c], m, n);
    }
    forall c: nat | c < |components|
      ensures analysis.components[c].recursive <==> OnCycle(g, analysis.components[c].members)
    {
      ReportRecursive(g, components, analysis.components[c], c);
    }
  }

  lemma SccPair(g: Grammar, members: seq<nat>, m: nat, n: nat)
    requires IsScc(g, members) && m in members && n < g.nonterminals
    ensures n in members <==> Reaches(g, m, n) && Reaches(g, n, m)
  {
    hide Reaches;
  }

  lemma ReportRecursive(g: Grammar, components: seq<seq<nat>>, report: Scc, c: nat)
    requires InRange(g) && ReportFor(g, components, report, c) && IsScc(g, components[c])
    ensures report.recursive <==> OnCycle(g, report.members)
  {
    hide IsScc, DependsOn, OnCycle;
    CycleIff(g, components[c]);
  }

  lemma ReportedPartitions(g: Grammar, components: seq<seq<nat>>, analysis: SccAnalysis)
    requires |analysis.components| == |components| && |analysis.componentOf| == g.nonterminals
    requires forall k: nat {:trigger analysis.components[k]} :: k < |components| ==>
               ReportFor(g, components, analysis.components[k], k)
    requires forall c: nat :: c < |components| ==> IsScc(g, components[c])
    requires forall x: nat, c: nat {:trigger x in components[c]} :: x < g.nonterminals && c < |components| ==>
               (x in components[c] <==> analysis.componentOf[x] == c)
    requires forall x: nat :: x < g.nonterminals ==> analysis.componentOf[x] < |components|
    ensures Partitions(g, analysis)
  {
    hide DependsOn, Reaches, OnCycle;
    forall c: nat | c < |components|
      ensures analysis.components[c].members == components[c] && analysis.components[c].id == c
    {
      assert ReportFor(g, components, analysis.components[c], c);
    }
    hide ReportFor;
    forall c: nat, n: nat | c < |components|
      ensures n in analysis.components[c].members <==> n < g.nonterminals && analysis.componentOf[n] == c
    {
      SccBasics(g, components[c]);
      assert n < g.nonterminals ==> (n in components[c] <==> analysis.componentOf[n] == c);
    }
    forall c: nat, i, j | c < |components| && 0 <= i < j < |analysis.components[c].members|
      ensures analysis.components[c].members[i] < analysis.components[c].members[j]
    {
      SccBasics(g, components[c]);
    }
    forall c: nat | c < |components| ensures analysis.components[c].members != [] {
      SccBasics(g, components[c]);
    }
  }

  lemma SccBasics(g: Grammar, members: seq<nat>)
    requires IsScc(g, members)
    ensures members != [] && Ascending(members) && forall x <- members :: x < g.nonterminals
  {
    hide Reaches;
  }
}
