/**
 Liveness of a byte automaton: the predecessor lists in one compressed array, and a backward search from the
 accepting states.
 */
module Liveness {
  import opened Grammars
  import opened CompileErrors
  import opened Terminals
  import opened Flags

  // ---------- The distinct live targets of a row ----------

  ghost predicate Ordered(s: seq<nat>) {
    forall i, j :: 0 <= i < j < |s| ==> s[i] <= s[j]
  }

  function InsertTarget(t: nat, s: seq<nat>): (r: seq<nat>)
    requires Ordered(s)
    ensures Ordered(r) && forall x: nat :: x in r <==> x == t || x in s
  {
    if s == [] then [t]
    else
      OrderedTail(s);
      if t <= s[0] then
        OrderedCons(t, s);
        [t] + s
      else
        var rest := InsertTarget(t, s[1..]);
        OrderedCons(s[0], rest);
        [s[0]] + rest
  }

  lemma OrderedTail(s: seq<nat>)
    requires Ordered(s) && s != []
    ensures Ordered(s[1..]) && (forall x: nat :: x in s <==> x == s[0] || x in s[1..]) && forall x <- s :: s[0] <= x
  {
    assert s == [s[0]] + s[1..];
  }

  lemma OrderedCons(t: nat, s: seq<nat>)
    requires Ordered(s) && forall x <- s :: t <= x
    ensures Ordered([t] + s)
  {
    assert forall i :: 0 <= i < |s| ==> s[i] in s;
  }

  function SortTargets(s: seq<nat>): (r: seq<nat>)
    ensures Ordered(r) && forall x: nat :: x in r <==> x in s
  {
    if s == [] then []
    else
      assert forall x: nat :: x in s <==> x == s[0] || x in s[1..];
      InsertTarget(s[0], SortTargets(s[1..]))
  }

  // Drop the dead targets and those equal to the one before.
  function Distinct(s: seq<nat>, previous: nat): (r: seq<nat>)
    requires Ordered(s) && (previous == DEAD || forall x <- s :: previous <= x)
    ensures forall x: nat :: x in r <==> x in s && x != DEAD && x != previous
    ensures forall i, j :: 0 <= i < j < |r| ==> r[i] != r[j]
  {
    if s == [] then []
    else
      OrderedTail(s);
      if s[0] == DEAD || s[0] == previous then Distinct(s[1..], previous)
      else
        var rest := Distinct(s[1..], s[0]);
        assert forall i :: 0 <= i < |rest| ==> rest[i] in rest;
        var r := [s[0]] + rest;
        assert r[1..] == rest && forall x: nat :: x in r <==> x == s[0] || x in r[1..];
        assert s[0] in s;
        assert previous != DEAD ==> forall x <- s :: previous < s[0] <= x;
        r
  }

  function Targets(row: Row): (r: seq<nat>)
    ensures forall x: nat :: x in r <==> x in row && x != DEAD
    ensures forall i, j :: 0 <= i < j < |r| ==> r[i] != r[j]
  {
    Distinct(SortTargets(row), DEAD)
  }

  // ---------- Edges ----------

  type Edge = (nat, nat)

  function EdgesOf(source: nat, targets: seq<nat>): seq<Edge> {
    seq(|targets|, i requires 0 <= i < |targets| => (source, targets[i]))
  }

  // The edges of the first `upto` states, in the order they are visited.
  function Edges(transitions: seq<Row>, upto: nat): seq<Edge>
    requires upto <= |transitions|
  {
    if upto == 0 then [] else Edges(transitions, upto - 1) + EdgesOf(upto - 1, Targets(transitions[upto - 1]))
  }

  function CountTo(edges: seq<Edge>, target: nat): nat {
    if edges == [] then 0 else CountTo(edges[..|edges| - 1], target) + if edges[|edges| - 1].1 == target then 1 else 0
  }

  lemma CountOneMore(edges: seq<Edge>, edge: Edge, target: nat)
    ensures CountTo(edges + [edge], target) == CountTo(edges, target) + if edge.1 == target then 1 else 0
  {
    assert (edges + [edge])[..|edges|] == edges;
  }

  lemma {:induction false} CountPrefix(edges: seq<Edge>, k: nat, target: nat)
    requires k <= |edges|
    ensures CountTo(edges[..k], target) <= CountTo(edges, target)
    decreases |edges|
  {
    if k < |edges| {
      CountPrefix(edges[..|edges| - 1], k, target);
      assert edges[..|edges| - 1][..k] == edges[..k];
    } else {
      assert edges[..k] == edges;
    }
  }

  lemma EdgesOfMore(source: nat, targets: seq<nat>, j: nat)
    requires j < |targets|
    ensures EdgesOf(source, targets[..j + 1]) == EdgesOf(source, targets[..j]) + [(source, targets[j])]
  {
  }

  // What has been visited is always a prefix of all edges.
  lemma {:induction false} EdgesPrefix(transitions: seq<Row>, upto: nat, s: nat, j: nat)
    requires s < upto <= |transitions| && j <= |Targets(transitions[s])|
    ensures Edges(transitions, s) + EdgesOf(s, Targets(transitions[s])[..j]) <= Edges(transitions, upto)
    decreases upto
  {
    if s == upto - 1 {
      var targets := Targets(transitions[s]);
      assert EdgesOf(s, targets[..j]) <= EdgesOf(s, targets);
    } else {
      EdgesPrefix(transitions, upto - 1, s, j);
    }
  }

  // An edge is a transition that is not dead.
  lemma {:induction false} EdgeIffTransition(transitions: seq<Row>, upto: nat, s: nat, t: nat)
    requires upto <= |transitions|
    ensures (s, t) in Edges(transitions, upto) <==> s < upto && t in transitions[s] && t != DEAD
    decreases upto
  {
    if upto > 0 {
      EdgeIffTransition(transitions, upto - 1, s, t);
      var targets := Targets(transitions[upto - 1]);
      var edges := EdgesOf(upto - 1, targets);
      if s == upto - 1 && t in targets {
        var i :| 0 <= i < |targets| && targets[i] == t;
        assert edges[i] == (s, t);
      }
      assert (s, t) in edges ==> s == upto - 1 && t in targets;
      assert (s, t) in Edges(transitions, upto) <==> (s, t) in Edges(transitions, upto - 1) || (s, t) in edges;
    }
  }

  ghost predicate TargetsInRange(transitions: seq<Row>) {
    forall s: nat, b: nat {:trigger transitions[s][b]} :: s < |transitions| && b < 256 ==>
      transitions[s][b] == DEAD || transitions[s][b] < |transitions|
  }

  // ---------- Counting ----------

  function Total(counts: seq<nat>): nat {
    if counts == [] then 0 else Total(counts[..|counts| - 1]) + counts[|counts| - 1]
  }

  lemma {:induction false} TotalMore(counts: seq<nat>, t: nat)
    requires t < |counts|
    ensures Total(counts[t := counts[t] + 1]) == Total(counts) + 1
    decreases |counts|
  {
    var after := counts[t := counts[t] + 1];
    if t < |counts| - 1 {
      TotalMore(counts[..|counts| - 1], t);
      assert after[..|after| - 1] == counts[..|counts| - 1][t := counts[t] + 1];
    } else {
      assert after[..|after| - 1] == counts[..|counts| - 1];
    }
  }

  lemma {:induction false} TotalZero(counts: seq<nat>)
    requires forall i :: 0 <= i < |counts| ==> counts[i] == 0
    ensures Total(counts) == 0
    decreases |counts|
  {
    if counts != [] {
      TotalZero(counts[..|counts| - 1]);
    }
  }

  ghost predicate CountsFor(counts: seq<nat>, edges: seq<Edge>, states: nat) {
    |counts| == states && forall t: nat :: t < states ==> counts[t] == CountTo(edges, t)
  }

  lemma CountsMore(counts: seq<nat>, edges: seq<Edge>, states: nat, edge: Edge)
    requires CountsFor(counts, edges, states) && edge.1 < states
    ensures CountsFor(counts[edge.1 := counts[edge.1] + 1], edges + [edge], states)
  {
    forall t: nat | t < states ensures counts[edge.1 := counts[edge.1] + 1][t] == CountTo(edges + [edge], t) {
      CountOneMore(edges, edge, t);
    }
  }

  // Count the predecessors of every state, once per source; a target outside the table is an error.
  method CountPredecessors(transitions: seq<Row>) returns (r: Result<seq<nat>>, edgeCount: nat)
    ensures r.Ok? <==> TargetsInRange(transitions)
    ensures r.Err? ==> r.error == InternalError("DFA transition target is out of range")
    ensures r.Ok? ==>
            CountsFor(r.value, Edges(transitions, |transitions|), |transitions|) && edgeCount == Total(r.value)
  {
    hide Edges, CountsFor;
    var counts: seq<nat> := seq(|transitions|, _ => 0);
    edgeCount := 0;
    TotalZero(counts);
    NothingCounted(transitions, counts);
    for s := 0 to |transitions|
      invariant |counts| == |transitions| && CountsFor(counts, Edges(transitions, s), |transitions|)
      invariant edgeCount == Total(counts)
      invariant forall k: nat, b: nat {:trigger transitions[k][b]} :: k < s && b < 256 ==>
                  transitions[k][b] == DEAD || transitions[k][b] < |transitions|
    {
      var targets := Targets(transitions[s]);
      ghost var visited := Edges(transitions, s);
      for j := 0 to |targets|
        invariant |counts| == |transitions| && CountsFor(counts, visited, |transitions|) && edgeCount == Total(counts)
        invariant visited == Edges(transitions, s) + EdgesOf(s, targets[..j])
        invariant forall i :: 0 <= i < j ==> targets[i] < |transitions|
      {
        var target := targets[j];
        if target >= |transitions| {
          OutOfRange(transitions, s, target);
          return Err(InternalError("DFA transition target is out of range")), edgeCount;
        }
        CountsMore(counts, visited, |transitions|, (s, target));
        TotalMore(counts, target);
        EdgesOfMore(s, targets, j);
        counts := counts[target := counts[target] + 1];
        edgeCount := edgeCount + 1;
        visited := visited + [(s, target)];
      }
      assert targets[..|targets|] == targets;
      NextEdges(transitions, s);
      RowInRange(transitions[s], |transitions|);
    }
    r := Ok(counts);
  }

  lemma NothingCounted(transitions: seq<Row>, counts: seq<nat>)
    requires |counts| == |transitions| && forall i :: 0 <= i < |counts| ==> counts[i] == 0
    ensures CountsFor(counts, Edges(transitions, 0), |transitions|)
  {
  }

  lemma NextEdges(transitions: seq<Row>, s: nat)
    requires s < |transitions|
    ensures Edges(transitions, s + 1) == Edges(transitions, s) + EdgesOf(s, Targets(transitions[s]))
  {
  }

  lemma OutOfRange(transitions: seq<Row>, s: nat, target: nat)
    requires s < |transitions| && target in Targets(transitions[s]) && target >= |transitions|
    ensures !TargetsInRange(transitions)
  {
    var b: nat :| b < 256 && transitions[s][b] == target;
  }

  lemma RowInRange(row: Row, states: nat)
    requires forall i :: 0 <= i < |Targets(row)| ==> Targets(row)[i] < states
    ensures forall b: nat :: b < 256 ==> row[b] == DEAD || row[b] < states
  {
    forall b: nat | b < 256 && row[b] != DEAD ensures row[b] < states {
      assert row[b] in row;
      assert row[b] in Targets(row);
    }
  }

  // ---------- The compressed predecessor lists ----------

  ghost predicate OffsetsFor(offsets: seq<nat>, counts: seq<nat>) {
    && |offsets| == |counts| + 1 && offsets[0] == 0 && offsets[|counts|] == Total(counts)
    && (forall t: nat {:trigger counts[t]} :: t < |counts| ==> offsets[t + 1] == offsets[t] + counts[t])
    && (forall t: nat, u: nat :: t <= u < |offsets| ==> offsets[t] <= offsets[u])
  }

  ghost predicate Steps(offsets: seq<nat>, counts: seq<nat>) {
    |offsets| <= |counts| + 1
      && forall t: nat {:trigger counts[t]} :: t + 1 < |offsets| ==> offsets[t + 1] == offsets[t] + counts[t]
  }

  lemma {:induction false} StepsAscend(offsets: seq<nat>, counts: seq<nat>, t: nat, u: nat)
    requires Steps(offsets, counts) && t <= u < |offsets|
    ensures offsets[t] <= offsets[u]
    decreases u
  {
    if t < u {
      StepsAscend(offsets, counts, t, u - 1);
      assert offsets[u] == offsets[u - 1] + counts[u - 1];
    }
  }

  method PrefixSums(counts: seq<nat>) returns (offsets: seq<nat>)
    ensures OffsetsFor(offsets, counts)
  {
    offsets := [0];
    for t := 0 to |counts|
      invariant |offsets| == t + 1 && offsets[0] == 0 && offsets[t] == Total(counts[..t]) && Steps(offsets, counts)
    {
      assert counts[..t + 1][..t] == counts[..t];
      offsets := offsets + [offsets[t] + counts[t]];
    }
    assert counts[..|counts|] == counts;
    StepsAreOffsets(offsets, counts);
  }

  lemma StepsAreOffsets(offsets: seq<nat>, counts: seq<nat>)
    requires |offsets| == |counts| + 1 && offsets[0] == 0 && offsets[|counts|] == Total(counts)
    requires Steps(offsets, counts)
    ensures OffsetsFor(offsets, counts)
  {
    hide Total, Steps;
    forall t: nat, u: nat | t <= u < |offsets| ensures offsets[t] <= offsets[u] {
      StepsAscend(offsets, counts, t, u);
    }
    forall t: nat {:trigger counts[t]} | t < |counts| ensures offsets[t + 1] == offsets[t] + counts[t] {
      StepIs(offsets, counts, t);
    }
  }

  lemma StepIs(offsets: seq<nat>, counts: seq<nat>, t: nat)
    requires Steps(offsets, counts) && t + 1 < |offsets|
    ensures offsets[t + 1] == offsets[t] + counts[t]
  {
  }

  // Source `s` stands in the part of the list of `t` filled so far.
  ghost predicate Listed(offsets: seq<nat>, filled: seq<nat>, predecessors: seq<nat>, s: nat, t: nat)
    requires t < |filled| < |offsets|
  {
    exists i: nat :: offsets[t] <= i < offsets[t] + filled[t] && i < |predecessors| && predecessors[i] == s
  }

  ghost predicate FilledFor(offsets: seq<nat>, filled: seq<nat>, predecessors: seq<nat>, edges: seq<Edge>) {
    && |filled| < |offsets|
    && (forall t: nat, i: nat {:trigger offsets[t], predecessors[i]} ::
          t < |filled| && offsets[t] <= i < offsets[t] + filled[t] && i < |predecessors| ==>
          (predecessors[i], t) in edges)
    && (forall e <- edges :: e.1 < |filled| && Listed(offsets, filled, predecessors, e.0, e.1))
  }

  // No slot of one list belongs to another.
  lemma SlotsApart(offsets: seq<nat>, counts: seq<nat>, filled: seq<nat>, t: nat, u: nat, i: nat)
    requires OffsetsFor(offsets, counts) && |filled| == |counts| && t < |counts| && u < |counts| && t != u
    requires forall k: nat :: k < |counts| ==> filled[k] <= counts[k]
    requires filled[t] < counts[t] && offsets[u] <= i < offsets[u] + filled[u]
    ensures i != offsets[t] + filled[t]
  {
    if t < u {
      assert offsets[t + 1] <= offsets[u];
    } else {
      assert offsets[u + 1] <= offsets[t];
    }
  }

  // The next free slot of the target's list.
  function FreeSlot(offsets: seq<nat>, filled: seq<nat>, t: nat): nat
    requires t < |filled| && t < |offsets|
  {
    offsets[t] + filled[t]
  }

  lemma SlotHolds(offsets: seq<nat>, counts: seq<nat>, filled: seq<nat>, predecessors: seq<nat>, edges: seq<Edge>,
      edge: Edge, u: nat, i: nat)
    requires OffsetsFor(offsets, counts) && FilledFor(offsets, filled, predecessors, edges) && |filled| == |counts|
    requires forall k: nat :: k < |counts| ==> filled[k] <= counts[k]
    requires edge.1 < |counts| && filled[edge.1] < counts[edge.1] && u < |counts| && i < |predecessors|
    requires FreeSlot(offsets, filled, edge.1) < |predecessors|
    requires offsets[u] <= i < offsets[u] + filled[edge.1 := filled[edge.1] + 1][u]
    ensures (predecessors[FreeSlot(offsets, filled, edge.1) := edge.0][i], u) in edges + [edge]
  {
    if u != edge.1 {
      SlotsApart(offsets, counts, filled, edge.1, u, i);
    }
    if i != FreeSlot(offsets, filled, edge.1) {
      assert (predecessors[i], u) in edges;
    }
  }

  lemma StillListed(offsets: seq<nat>, counts: seq<nat>, filled: seq<nat>, predecessors: seq<nat>, edge: Edge, e: Edge)
    requires OffsetsFor(offsets, counts) && |filled| == |counts|
    requires forall k: nat :: k < |counts| ==> filled[k] <= counts[k]
    requires edge.1 < |counts| && filled[edge.1] < counts[edge.1] && FreeSlot(offsets, filled, edge.1) < |predecessors|
    requires e.1 < |counts| && (e == edge || Listed(offsets, filled, predecessors, e.0, e.1))
    ensures Listed(offsets, filled[edge.1 := filled[edge.1] + 1],
            predecessors[FreeSlot(offsets, filled, edge.1) := edge.0], e.0, e.1)
  {
    var cursor := FreeSlot(offsets, filled, edge.1);
    var after := predecessors[cursor := edge.0];
    if e == edge {
      assert after[cursor] == e.0;
    } else {
      var i: nat :| offsets[e.1] <= i < offsets[e.1] + filled[e.1] && i < |predecessors| && predecessors[i] == e.0;
      if e.1 != edge.1 {
        SlotsApart(offsets, counts, filled, edge.1, e.1, i);
      }
      assert after[i] == e.0;
    }
  }

  lemma CursorFits(offsets: seq<nat>, counts: seq<nat>, filled: seq<nat>, t: nat)
    requires OffsetsFor(offsets, counts) && |filled| == |counts| && t < |counts| && filled[t] < counts[t]
    ensures FreeSlot(offsets, filled, t) < Total(counts)
  {
    assert offsets[t + 1] <= offsets[|counts|];
  }

  lemma FillOne(offsets: seq<nat>, counts: seq<nat>, filled: seq<nat>, predecessors: seq<nat>, edges: seq<Edge>,
      edge: Edge)
    requires OffsetsFor(offsets, counts) && FilledFor(offsets, filled, predecessors, edges) && |filled| == |counts|
    requires forall k: nat :: k < |counts| ==> filled[k] <= counts[k]
    requires edge.1 < |counts| < |offsets| && filled[edge.1] < counts[edge.1] && |predecessors| == Total(counts)
    ensures var cursor := offsets[edge.1] + filled[edge.1];
            cursor < |predecessors| &&
            FilledFor(offsets, filled[edge.1 := filled[edge.1] + 1], predecessors[cursor := edge.0], edges + [edge])
  {
    hide OffsetsFor, Listed, Total;
    CursorFits(offsets, counts, filled, edge.1);
    var cursor := FreeSlot(offsets, filled, edge.1);
    var after, more := predecessors[cursor := edge.0], filled[edge.1 := filled[edge.1] + 1];
    forall u: nat, i: nat | u < |more| && offsets[u] <= i < offsets[u] + more[u] && i < |after|
      ensures (after[i], u) in edges + [edge]
    {
      SlotHolds(offsets, counts, filled, predecessors, edges, edge, u, i);
    }
    forall e | e in edges + [edge] ensures e.1 < |more| && Listed(offsets, more, after, e.0, e.1) {
      assert e in edges || e == edge;
      StillListed(offsets, counts, filled, predecessors, edge, e);
    }
  }

  // The lists: slot range `offsets[t]..offsets[t + 1]` holds exactly the sources of the edges into `t`.
  ghost predicate ListsFor(offsets: seq<nat>, predecessors: seq<nat>, edges: seq<Edge>, states: nat) {
    && |offsets| == states + 1
    && (forall t: nat, u: nat :: t <= u <= states ==> offsets[t] <= offsets[u] <= |predecessors|)
    && (forall t: nat, s: nat {:trigger (s, t) in edges} :: t < states ==>
          ((s, t) in edges <==>
            exists i: nat :: offsets[t] <= i < offsets[t + 1] && i < |predecessors| && predecessors[i] == s))
  }

  lemma FilledIsLists(offsets: seq<nat>, counts: seq<nat>, predecessors: seq<nat>, edges: seq<Edge>)
    requires OffsetsFor(offsets, counts) && FilledFor(offsets, counts, predecessors, edges)
    requires |predecessors| == Total(counts)
    ensures ListsFor(offsets, predecessors, edges, |counts|)
  {
    assert forall u: nat :: u <= |counts| ==> offsets[u] <= offsets[|counts|];
    forall t: nat, s: nat | t < |counts|
      ensures (s, t) in edges <==>
              exists i: nat :: offsets[t] <= i < offsets[t + 1] && i < |predecessors| && predecessors[i] == s
    {
      if (s, t) in edges {
        assert Listed(offsets, counts, predecessors, s, t);
      }
    }
  }

  lemma RoomLeft(counts: seq<nat>, filled: seq<nat>, all: seq<Edge>, visited: seq<Edge>, edge: Edge)
    requires CountsFor(counts, all, |counts|) && CountsFor(filled, visited, |counts|) && visited + [edge] <= all
    requires edge.1 < |counts|
    ensures filled[edge.1] < counts[edge.1]
    ensures forall k: nat :: k < |counts| ==> filled[k] <= counts[k]
  {
    CountOneMore(visited, edge, edge.1);
    CountPrefix(all, |visited| + 1, edge.1);
    assert all[..|visited| + 1] == visited + [edge];
    forall k: nat | k < |counts| ensures filled[k] <= counts[k] {
      CountPrefix(all, |visited|, k);
      assert all[..|visited|] == visited;
    }
  }

  method FillPredecessors(transitions: seq<Row>, counts: seq<nat>, offsets: seq<nat>, edgeCount: nat)
      returns (predecessors: seq<nat>)
    requires TargetsInRange(transitions) && CountsFor(counts, Edges(transitions, |transitions|), |transitions|)
    requires OffsetsFor(offsets, counts) && edgeCount == Total(counts)
    ensures ListsFor(offsets, predecessors, Edges(transitions, |transitions|), |transitions|)
  {
    hide Edges, CountsFor, OffsetsFor, FilledFor, Total, TargetsInRange;
    predecessors := seq(edgeCount, _ => 0);
    var filled: seq<nat> := seq(|transitions|, _ => 0);
    ghost var all := Edges(transitions, |transitions|);
    Sizes(transitions, counts, offsets);
    NothingCounted(transitions, filled);
    NothingFilled(transitions, offsets, filled, predecessors);
    for s := 0 to |transitions|
      invariant |predecessors| == edgeCount && |filled| == |transitions|
      invariant CountsFor(filled, Edges(transitions, s), |transitions|)
      invariant FilledFor(offsets, filled, predecessors, Edges(transitions, s))
    {
      var targets := Targets(transitions[s]);
      ghost var visited := Edges(transitions, s);
      for j := 0 to |targets|
        invariant |predecessors| == edgeCount && |filled| == |transitions|
        invariant visited == Edges(transitions, s) + EdgesOf(s, targets[..j])
        invariant CountsFor(filled, visited, |transitions|) && FilledFor(offsets, filled, predecessors, visited)
      {
        var target := targets[j];
        InRangeTarget(transitions, s, target);
        EdgesOfMore(s, targets, j);
        EdgesPrefix(transitions, |transitions|, s, j + 1);
        assert visited + [(s, target)] == Edges(transitions, s) + EdgesOf(s, targets[..j + 1]);
        RoomLeft(counts, filled, all, visited, (s, target));
        FillOne(offsets, counts, filled, predecessors, visited, (s, target));
        CountsMore(filled, visited, |transitions|, (s, target));
        predecessors := predecessors[offsets[target] + filled[target] := s];
        filled := filled[target := filled[target] + 1];
        visited := visited + [(s, target)];
      }
      assert targets[..|targets|] == targets;
      NextEdges(transitions, s);
    }
    SameCounts(counts, filled, all, |transitions|);
    FilledIsLists(offsets, counts, predecessors, all);
  }

  lemma Sizes(transitions: seq<Row>, counts: seq<nat>, offsets: seq<nat>)
    requires CountsFor(counts, Edges(transitions, |transitions|), |transitions|) && OffsetsFor(offsets, counts)
    ensures |counts| == |transitions| && |offsets| == |transitions| + 1
  {
  }

  lemma NothingFilled(transitions: seq<Row>, offsets: seq<nat>, filled: seq<nat>, predecessors: seq<nat>)
    requires |offsets| == |filled| + 1 && forall i :: 0 <= i < |filled| ==> filled[i] == 0
    ensures FilledFor(offsets, filled, predecessors, Edges(transitions, 0))
  {
  }

  lemma InRangeTarget(transitions: seq<Row>, s: nat, target: nat)
    requires TargetsInRange(transitions) && s < |transitions| && target in Targets(transitions[s])
    ensures target < |transitions|
  {
    var b: nat :| b < 256 && transitions[s][b] == target;
  }

  lemma SameCounts(counts: seq<nat>, filled: seq<nat>, edges: seq<Edge>, states: nat)
    requires CountsFor(counts, edges, states) && CountsFor(filled, edges, states)
    ensures counts == filled
  {
  }

  // ---------- The backward search ----------

  ghost predicate AcceptsSome(d: ByteDfa, s: nat) {
    exists w: Word :: AcceptsFrom(Dfa(d), AtState(s), w)
  }

  ghost predicate LiveSound(transitions: seq<Row>, accepting: seq<bool>, live: seq<bool>) {
    forall s: nat :: s < |live| && live[s] ==> AcceptsSome(ByteDfa(transitions, accepting, []), s)
  }

  predicate Searched(live: seq<bool>, stack: seq<nat>, open: Option<nat>, t: nat) {
    t < |live| && live[t] && t !in stack && open != Some(t)
  }

  ghost predicate LiveClosed(edges: seq<Edge>, live: seq<bool>, stack: seq<nat>, open: Option<nat>) {
    forall e <- edges :: Searched(live, stack, open, e.1) ==> e.0 < |live| && live[e.0]
  }

  ghost predicate Stacked(live: seq<bool>, stack: seq<nat>, states: nat) {
    |live| == states && forall s <- stack :: s < |live| && live[s]
  }

  // A predecessor of a state that accepts something accepts something.
  lemma PredecessorAccepts(transitions: seq<Row>, accepting: seq<bool>, s: nat, t: nat)
    requires (s, t) in Edges(transitions, |transitions|) && t < |transitions|
    requires AcceptsSome(ByteDfa(transitions, accepting, []), t)
    ensures s < |transitions| && AcceptsSome(ByteDfa(transitions, accepting, []), s)
  {
    hide Edges, AcceptsFrom;
    EdgeIffTransition(transitions, |transitions|, s, t);
    var d := ByteDfa(transitions, accepting, []);
    var w: Word :| AcceptsFrom(Dfa(d), AtState(t), w);
    var b: nat :| b < 256 && transitions[s][b] == t;
    var byte: Byte := b;
    StepAccepts(Dfa(d), AtState(s), byte, AtState(t), w);
  }

  lemma StepAccepts(t: CompiledTerminal, c: Cursor, byte: Byte, next: Cursor, w: Word)
    requires Advance(t, c, byte) == Some(next) && AcceptsFrom(t, next, w)
    ensures AcceptsFrom(t, c, [byte] + w)
  {
    assert ([byte] + w)[0] == byte && ([byte] + w)[1..] == w;
  }

  lemma {:induction false} AcceptingIsLive(transitions: seq<Row>, accepting: seq<bool>, live: seq<bool>, s: nat,
      w: Word)
    requires TargetsInRange(transitions) && |transitions| == |accepting| == |live|
    requires LiveClosed(Edges(transitions, |transitions|), live, [], None)
    requires forall k: nat :: k < |accepting| && accepting[k] ==> live[k]
    requires AcceptsFrom(Dfa(ByteDfa(transitions, accepting, [])), AtState(s), w)
    ensures s < |live| && live[s]
    decreases |w|
  {
    if w != [] {
      var t := transitions[s][w[0]];
      AcceptingIsLive(transitions, accepting, live, t, w[1..]);
      assert t in transitions[s];
      EdgeIffTransition(transitions, |transitions|, s, t);
      assert Searched(live, [], None, t);
    }
  }

  // The runs of the automaton do not look at its liveness table.
  lemma {:induction false} RunIgnoresLive(transitions: seq<Row>, accepting: seq<bool>, live: seq<bool>, c: Cursor,
      w: Word)
    ensures Run(Dfa(ByteDfa(transitions, accepting, live)), c, w) == Run(Dfa(ByteDfa(transitions, accepting, [])), c, w)
    ensures AcceptsFrom(Dfa(ByteDfa(transitions, accepting, live)), c, w) <==>
            AcceptsFrom(Dfa(ByteDfa(transitions, accepting, [])), c, w)
    decreases |w|
  {
    if w != [] {
      var next := Advance(Dfa(ByteDfa(transitions, accepting, [])), c, w[0]);
      if next.Some? {
        RunIgnoresLive(transitions, accepting, live, next.value, w[1..]);
      }
    }
  }

  lemma SearchExact(transitions: seq<Row>, accepting: seq<bool>, live: seq<bool>)
    requires TargetsInRange(transitions) && |transitions| == |accepting| == |live|
    requires LiveSound(transitions, accepting, live) && LiveClosed(Edges(transitions, |transitions|), live, [], None)
    requires forall k: nat :: k < |accepting| && accepting[k] ==> live[k]
    ensures LivenessExact(ByteDfa(transitions, accepting, live))
  {
    var d, plain := ByteDfa(transitions, accepting, live), ByteDfa(transitions, accepting, []);
    forall s: nat ensures d.IsLive(s) <==> exists w: Word :: AcceptsFrom(Dfa(d), AtState(s), w) {
      if d.IsLive(s) {
        assert AcceptsSome(plain, s);
        var w: Word :| AcceptsFrom(Dfa(plain), AtState(s), w);
        RunIgnoresLive(transitions, accepting, live, AtState(s), w);
      }
      if w: Word :| AcceptsFrom(Dfa(d), AtState(s), w) {
        RunIgnoresLive(transitions, accepting, live, AtState(s), w);
        AcceptingIsLive(transitions, accepting, live, s, w);
      }
    }
  }

  lemma Popped(edges: seq<Edge>, live: seq<bool>, stack: seq<nat>, states: nat)
    requires Stacked(live, stack, states) && LiveClosed(edges, live, stack, None) && stack != []
    ensures var t := stack[|stack| - 1];
            t < states && live[t] && Stacked(live, stack[..|stack| - 1], states)
              && LiveClosed(edges, live, stack[..|stack| - 1], Some(t))
  {
    var front, t := stack[..|stack| - 1], stack[|stack| - 1];
    forall a: nat | a in front ensures a < |live| && live[a] {
      InPopped(stack, a);
    }
    forall e | e in edges && Searched(live, front, Some(t), e.1) ensures e.0 < |live| && live[e.0] {
      InPopped(stack, e.1);
    }
    InPopped(stack, t);
  }

  lemma MarkLive(transitions: seq<Row>, accepting: seq<bool>, live: seq<bool>, stack: seq<nat>, s: nat, t: nat)
    requires LiveSound(transitions, accepting, live) && Stacked(live, stack, |transitions|)
    requires LiveClosed(Edges(transitions, |transitions|), live, stack, Some(t))
    requires (s, t) in Edges(transitions, |transitions|) && t < |live| && live[t] && s < |live| && !live[s]
    ensures LiveSound(transitions, accepting, live[s := true]) && Stacked(live[s := true], stack + [s], |transitions|)
    ensures LiveClosed(Edges(transitions, |transitions|), live[s := true], stack + [s], Some(t))
  {
    hide Edges, AcceptsSome;
    PredecessorAccepts(transitions, accepting, s, t);
    assert s in stack + [s] && forall a :: a in stack ==> a in stack + [s];
  }

  // Every predecessor of the open state has been looked at.
  lemma ListSearched(offsets: seq<nat>, predecessors: seq<nat>, edges: seq<Edge>, live: seq<bool>, stack: seq<nat>,
      t: nat)
    requires ListsFor(offsets, predecessors, edges, |live|) && LiveClosed(edges, live, stack, Some(t)) && t < |live|
    requires forall i: nat :: offsets[t] <= i < offsets[t + 1] ==> predecessors[i] < |live| && live[predecessors[i]]
    ensures LiveClosed(edges, live, stack, None)
  {
    forall e | e in edges && Searched(live, stack, None, e.1) ensures e.0 < |live| && live[e.0] {
      if e.1 == t {
        assert (e.0, t) in edges;
      }
    }
  }

  lemma ListEdge(offsets: seq<nat>, predecessors: seq<nat>, transitions: seq<Row>, t: nat, i: nat)
    requires ListsFor(offsets, predecessors, Edges(transitions, |transitions|), |transitions|) && t < |transitions|
    requires offsets[t] <= i < offsets[t + 1] && i < |predecessors|
    ensures (predecessors[i], t) in Edges(transitions, |transitions|) && predecessors[i] < |transitions|
  {
    EdgeIffTransition(transitions, |transitions|, predecessors[i], t);
  }

  lemma AcceptingLive(transitions: seq<Row>, accepting: seq<bool>)
    requires |transitions| == |accepting|
    ensures LiveSound(transitions, accepting, accepting)
  {
    forall s: nat | s < |accepting| && accepting[s] ensures AcceptsSome(ByteDfa(transitions, accepting, []), s) {
      assert AcceptsFrom(Dfa(ByteDfa(transitions, accepting, [])), AtState(s), []);
    }
  }

  lemma EverythingStacked(edges: seq<Edge>, live: seq<bool>, stack: seq<nat>)
    requires forall s: nat :: s in stack <==> s < |live| && live[s]
    ensures Stacked(live, stack, |live|) && LiveClosed(edges, live, stack, None)
  {
  }

  // The invariant of the search, with the list of `open` not yet looked at to the end.
  ghost predicate Searching(transitions: seq<Row>, accepting: seq<bool>, live: seq<bool>, stack: seq<nat>,
      open: Option<nat>)
  {
    && LiveSound(transitions, accepting, live) && Stacked(live, stack, |transitions|)
       && LiveClosed(Edges(transitions, |transitions|), live, stack, open)
    && |accepting| == |live| && forall k: nat :: k < |accepting| && accepting[k] ==> live[k]
  }

  method SearchList(transitions: seq<Row>, ghost accepting: seq<bool>, offsets: seq<nat>, predecessors: seq<nat>,
      live: seq<bool>, stack: seq<nat>, t: nat)
    returns (live': seq<bool>, stack': seq<nat>)
    requires ListsFor(offsets, predecessors, Edges(transitions, |transitions|), |transitions|)
    requires Searching(transitions, accepting, live, stack, Some(t)) && t < |transitions| == |live| && live[t]
    ensures Searching(transitions, accepting, live', stack', None)
    ensures Unset(live') < Unset(live) || (live' == live && stack' == stack)
  {
    hide Edges, LiveSound, LiveClosed, ListsFor, AcceptsSome, Stacked;
    live', stack' := live, stack;
    ListSize(offsets, predecessors, Edges(transitions, |transitions|), |transitions|, t);
    for i := offsets[t] to offsets[t + 1]
      invariant Searching(transitions, accepting, live', stack', Some(t)) && |live'| == |transitions| && live'[t]
      invariant forall k: nat :: offsets[t] <= k < i ==> predecessors[k] < |live'| && live'[predecessors[k]]
      invariant Unset(live') < Unset(live) || (live' == live && stack' == stack)
    {
      var source := predecessors[i];
      ListEdge(offsets, predecessors, transitions, t, i);
      if !live'[source] {
        MarkLive(transitions, accepting, live', stack', source, t);
        UnsetLess(live', source);
        live' := live'[source := true];
        stack' := stack' + [source];
      }
    }
    ListSearched(offsets, predecessors, Edges(transitions, |transitions|), live', stack', t);
  }

  method SearchBackwards(transitions: seq<Row>, accepting: seq<bool>, offsets: seq<nat>, predecessors: seq<nat>)
      returns (live: seq<bool>)
    requires |transitions| == |accepting| && TargetsInRange(transitions)
    requires ListsFor(offsets, predecessors, Edges(transitions, |transitions|), |transitions|)
    ensures |live| == |transitions| && LivenessExact(ByteDfa(transitions, accepting, live))
  {
    hide Edges, LiveSound, LiveClosed, TargetsInRange, LivenessExact, ListsFor, AcceptsSome;
    live := accepting;
    var stack: seq<nat> := [];
    for s := 0 to |accepting|
      invariant forall k: nat :: k in stack <==> k < s && accepting[k]
    {
      if accepting[s] {
        stack := stack + [s];
      }
    }
    AcceptingLive(transitions, accepting);
    EverythingStacked(Edges(transitions, |transitions|), live, stack);
    while stack != []
      invariant Searching(transitions, accepting, live, stack, None)
      decreases Unset(live), |stack|
    {
      var t := stack[|stack| - 1];
      Popped(Edges(transitions, |transitions|), live, stack, |transitions|);
      live, stack := SearchList(transitions, accepting, offsets, predecessors, live, stack[..|stack| - 1], t);
    }
    SearchExact(transitions, accepting, live);
  }

  lemma ListSize(offsets: seq<nat>, predecessors: seq<nat>, edges: seq<Edge>, states: nat, t: nat)
    requires ListsFor(offsets, predecessors, edges, states) && t < states
    ensures |offsets| == states + 1 && offsets[t] <= offsets[t + 1] <= |predecessors|
  {
  }

  // Exactly the states that can still reach acceptance are live; the tables must fit each other and themselves.
  method ComputeLiveness(transitions: seq<Row>, accepting: seq<bool>) returns (r: Result<seq<bool>>)
    ensures r.Ok? <==> |transitions| == |accepting| && TargetsInRange(transitions)
    ensures r.Ok? ==> |r.value| == |transitions| && LivenessExact(ByteDfa(transitions, accepting, r.value))
    ensures r.Err? ==> r.error.InternalError?
  {
    hide TargetsInRange, LivenessExact, ListsFor;
    if |transitions| != |accepting| {
      return Err(InternalError("DFA state and acceptance tables have different lengths"));
    }
    var counts, edgeCount := CountPredecessors(transitions);
    if counts.Err? {
      return Err(counts.error);
    }
    var offsets := PrefixSums(counts.value);
    var predecessors := FillPredecessors(transitions, counts.value, offsets, edgeCount);
    var live := SearchBackwards(transitions, accepting, offsets, predecessors);
    return Ok(live);
  }
}
