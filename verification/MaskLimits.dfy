/**
 When filling a mask stops: exactly when there are more edges to look at than the limit allows, or the recognizer itself
 fails on bytes of the trie.
 */
module MaskLimits {
  import opened Grammars
  import opened Runtime
  import opened Recognizers
  import opened Tries
  import opened Masks

  // The edges to look at: those of every node whose bytes pass, from `node` down.
  ghost function Tried(t: TokenTrie, m: Machine, node: nat, s: MachineState): nat
    requires TrieShape(t) && Fits(m, s) && node < |t.nodes|
    decreases |t.nodes| - node, 1, 0
  {
    TriedFrom(t, m, node, 0, s)
  }

  // The same through the edges from number `k` on.
  ghost function TriedFrom(t: TokenTrie, m: Machine, node: nat, k: nat, s: MachineState): nat
    requires TrieShape(t) && Fits(m, s) && node < |t.nodes|
    decreases |t.nodes| - node, 0, t.nodes[node].edgeLen - k
  {
    if k >= t.nodes[node].edgeLen then 0
    else
      EdgeAt(t, node, k);
      var e := EdgesOf(t, node)[k];
      assert e in EdgesOf(t, node);
      var r := TryAdvance(m, s, [e.byte]);
      1 + (if r.Done? && r.value != Rejected then Tried(t, m, e.child, r.state) else 0)
        + TriedFrom(t, m, node, k + 1, s)
  }

  lemma TriedUnfold(t: TokenTrie, m: Machine, node: nat, k: nat, s: MachineState)
    requires TrieShape(t) && Fits(m, s) && node < |t.nodes| && k < t.nodes[node].edgeLen
    ensures InBounds(t, node) && k < |EdgesOf(t, node)| && EdgesOf(t, node)[k].child < |t.nodes|
    ensures var e := EdgesOf(t, node)[k];
            var r := TryAdvance(m, s, [e.byte]);
            e in EdgesOf(t, node) && TriedFrom(t, m, node, k, s) ==
            1 + (if r.Done? && r.value != Rejected then Tried(t, m, e.child, r.state) else 0)
              + TriedFrom(t, m, node, k + 1, s)
  {
    hide TryAdvance, Tried;
    EdgeAt(t, node, k);
    assert EdgesOf(t, node)[k] in EdgesOf(t, node);
  }

  lemma TriedNone(t: TokenTrie, m: Machine, node: nat, k: nat, s: MachineState)
    requires TrieShape(t) && Fits(m, s) && node < |t.nodes| && k >= t.nodes[node].edgeLen
    ensures TriedFrom(t, m, node, k, s) == 0
  {
  }

  // The recognizer fails with `error` on bytes that lead down the trie from `node`.
  ghost predicate FailsBelow(t: TokenTrie, m: Machine, node: nat, s: MachineState, error: RuntimeError)
    requires TrieShape(t) && Fits(m, s)
  {
    exists w: Word, j: nat :: Leads(t, node, w, j) && FailsOn(m, s, w, error)
  }

  predicate FailsOn(m: Machine, s: MachineState, w: Word, error: RuntimeError)
    requires Fits(m, s)
  {
    Consume(m, s, w).Failed? && Consume(m, s, w).error == error
  }

  ghost predicate TooMany(limit: nat, tried: nat, error: RuntimeError) {
    tried > limit && error == LimitExceeded(MaskTraversal, limit + 1, limit)
  }

  lemma FailsThrough(t: TokenTrie, m: Machine, node: nat, s: MachineState, e: TrieEdge, error: RuntimeError)
    requires TrieShape(t) && Fits(m, s) && node < |t.nodes| && e in EdgesOf(t, node)
    ensures var r := TryAdvance(m, s, [e.byte]);
            (r.Failed? && r.error == error)
            || (r.Done? && r.value != Rejected && FailsBelow(t, m, e.child, r.state, error))
            ==> FailsBelow(t, m, node, s, error)
  {
    hide StepByte;
    var r := TryAdvance(m, s, [e.byte]);
    if r.Failed? && r.error == error {
      assert [e.byte][1..] == [];
      assert Leads(t, e.child, [], e.child);
      assert Leads(t, node, [e.byte], e.child);
      assert FailsOn(m, s, [e.byte], error);
    } else if r.Done? && r.value != Rejected && FailsBelow(t, m, e.child, r.state, error) {
      var v: Word, j: nat :| Leads(t, e.child, v, j) && FailsOn(m, r.state, v, error);
      var w := [e.byte] + v;
      assert w[0] == e.byte && w[1..] == v;
      ConsumeSplit(m, s, [e.byte], v);
      assert Leads(t, node, w, j) && FailsOn(m, s, w, error);
    }
  }

  // The walk counts exactly the edges to look at, and what stops it is their number or the recognizer.
  lemma {:induction false} WalkNodeStops(t: TokenTrie, m: Machine, limit: nat, node: nat, s: MachineState, sweep: Sweep)
    requires TrieShape(t) && Fits(m, s) && node < |t.nodes| && sweep.visited <= limit && IdsFit(t, node, |sweep.mask|)
    ensures var r, tried := WalkNode(t, m, limit, node, s, sweep), sweep.visited + Tried(t, m, node, s);
            && (r.Done? ==> r.state.visited == tried)
            && (r.Failed? ==> TooMany(limit, tried, r.error) || FailsBelow(t, m, node, s, r.error))
    decreases limit - sweep.visited, 1, 0
  {
    hide IsLive, WalkEdges, IdsFit, TrieShape, TriedFrom, FailsBelow;
    OwnIdsFit(t, node, |sweep.mask|);
    assert InBounds(t, node) by { NodeInBounds(t, node); }
    SetMaskBitsFits(sweep.mask, TokensAt(t, node));
    WalkEdgesStops(t, m, limit, node, 0, s, Emit(t, m, node, s, sweep).state);
  }

  lemma {:induction false} WalkEdgesStops(t: TokenTrie, m: Machine, limit: nat, node: nat, k: nat, s: MachineState,
      sweep: Sweep)
    requires TrieShape(t) && Fits(m, s) && node < |t.nodes| && sweep.visited <= limit && IdsFit(t, node, |sweep.mask|)
    ensures var r, tried := WalkEdges(t, m, limit, node, k, s, sweep), sweep.visited + TriedFrom(t, m, node, k, s);
            && (r.Done? ==> r.state.visited == tried)
            && (r.Failed? ==> TooMany(limit, tried, r.error) || FailsBelow(t, m, node, s, r.error))
    decreases limit - sweep.visited, 0, t.nodes[node].edgeLen - k
  {
    hide IsLive, WalkNode, TryAdvance, TrieShape, IdsFit, FailsBelow, Tried, TriedFrom;
    if k >= t.nodes[node].edgeLen {
      TriedNone(t, m, node, k, s);
    } else {
      EdgeAt(t, node, k);
      TriedUnfold(t, m, node, k, s);
      var e := EdgesOf(t, node)[k];
      var counted := sweep.(visited := sweep.visited + 1);
      var r := TryAdvance(m, s, [e.byte]);
      if sweep.visited < limit {
        if r.Failed? {
          FailsThrough(t, m, node, s, e, r.error);
        } else if r.value == Rejected {
          WalkEdgesStops(t, m, limit, node, k + 1, s, counted);
        } else {
          ChildIdsFit(t, node, |sweep.mask|, e);
          WalkNodeStops(t, m, limit, e.child, r.state, counted);
          var below := WalkNode(t, m, limit, e.child, r.state, counted);
          if below.Done? {
            WalkEdgesStops(t, m, limit, node, k + 1, s, below.state);
          } else {
            FailsThrough(t, m, node, s, e, below.error);
          }
        }
      }
    }
  }

  // Main result: the mask is filled exactly when the edges to look at are within the limit and the recognizer fails on
  // no bytes of the trie; and the error says which of the two it was.
  lemma MaskStops(v: DerivedVocabulary, tokens: map<Word, seq<nat>>, eos: nat, m: Machine, limit: nat, s: MachineState,
      mask: seq<bv32>)
    requires DerivedFrom(v, tokens, eos) && Fits(m, s) && |mask| == v.maskWords
    ensures var r, tried := MaskFrom(v, m, limit, s, mask), Tried(v.trie, m, 0, s);
            && (r.Done? <==> tried <= limit && forall error :: !FailsBelow(v.trie, m, 0, s, error))
            && (r.Done? ==> r.state.visited == tried)
            && (r.Failed? ==> TooMany(limit, tried, r.error) || FailsBelow(v.trie, m, 0, s, r.error))
  {
    hide IsAccepting, WalkNode, Spells, Tried, Consume;
    forall w: Word, id: nat | Spells(v.trie, 0, w, id) ensures id / 32 < |mask| {
      assert HasToken(tokens, w, id);
    }
    var start := if IsAccepting(m, s) then SetMaskBit(mask, eos).value else mask;
    WalkNodeStops(v.trie, m, limit, 0, s, Sweep(start, 0));
    if MaskFrom(v, m, limit, s, mask).Done? {
      forall w: Word, j: nat | Leads(v.trie, 0, w, j) ensures Consume(m, s, w).Done? {
        WalkNodeTries(v.trie, m, limit, 0, s, Sweep(start, 0), w, j);
      }
    }
  }
}
