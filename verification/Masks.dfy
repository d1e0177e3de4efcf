/**
 Filling a token mask from a recognizer: a depth-first walk of the token trie that advances the recognizer
 along every edge it does not reject and enables the ids of every node where it is live.  The walk is a
 recursive function here; the traversal with its explicit frame stack is proved to compute it, and the
 function is proved to enable exactly the tokens the recognizer lets through.
 */
module Masks {
  import opened Grammars
  import opened Runtime
  import opened Recognizers
  import opened Tries
  import opened MaskBits

  // ---------- Bits ----------

  // Id `id` is bit id % 32 of word id / 32.
  predicate Enabled(mask: seq<bv32>, id: nat) {
    id / 32 < |mask| && At(mask[id / 32], id % 32)
  }

  // The same read off the words as numbers: the place of two to the power id % 32 in word id / 32.
  predicate Lit(words: seq<bv32>, id: nat) {
    id / 32 < |words| && IsOne(words[id / 32], id % 32)
  }

  lemma LitIsEnabled(words: seq<bv32>, id: nat)
    ensures Lit(words, id) <==> Enabled(words, id)
  {
    hide At, IsOne;
    if id / 32 < |words| {
      AtReads(words[id / 32], id % 32);
    }
  }

  function SetMaskBit(mask: seq<bv32>, id: nat): Option<seq<bv32>> {
    if id / 32 < |mask| then Some(mask[id / 32 := WithBit(mask[id / 32], id % 32)]) else None
  }

  lemma SetMaskBitExact(mask: seq<bv32>, id: nat, other: nat)
    requires id / 32 < |mask|
    ensures Enabled(SetMaskBit(mask, id).value, other) <==> other == id || Enabled(mask, other)
  {
    hide At, WithBit;
    if other / 32 == id / 32 {
      WithBitAt(mask[id / 32], id % 32, other % 32);
      assert other == 32 * (other / 32) + other % 32 && id == 32 * (id / 32) + id % 32;
    }
  }

  function SetMaskBits(mask: seq<bv32>, ids: seq<nat>): (r: Option<seq<bv32>>)
    ensures r.Some? ==> |r.value| == |mask|
    decreases |ids|
  {
    if ids == [] then
      Some(mask)
    else
      match SetMaskBit(mask, ids[0])
      case None => None
      case Some(next) => SetMaskBits(next, ids[1..])
  }

  lemma {:induction false} SetMaskBitsExact(mask: seq<bv32>, ids: seq<nat>, other: nat)
    requires SetMaskBits(mask, ids).Some?
    ensures Enabled(SetMaskBits(mask, ids).value, other) <==> other in ids || Enabled(mask, other)
    decreases |ids|
  {
    hide Enabled;
    if ids != [] {
      SetMaskBitExact(mask, ids[0], other);
      SetMaskBitsExact(SetMaskBit(mask, ids[0]).value, ids[1..], other);
      assert other in ids <==> other == ids[0] || other in ids[1..];
    }
  }

  lemma {:induction false} SetMaskBitsFits(mask: seq<bv32>, ids: seq<nat>)
    requires forall id <- ids :: id / 32 < |mask|
    ensures SetMaskBits(mask, ids).Some?
    decreases |ids|
  {
    if ids != [] {
      assert ids[0] in ids && forall id <- ids[1..] :: id in ids;
      SetMaskBitsFits(SetMaskBit(mask, ids[0]).value, ids[1..]);
    }
  }

  // ---------- The walk as a function ----------

  datatype Sweep = Sweep(mask: seq<bv32>, visited: nat)

  function Emit(t: TokenTrie, m: Machine, node: nat, s: MachineState, sweep: Sweep): (r: Outcome<Sweep, ()>)
    requires Fits(m, s) && node < |t.nodes|
    ensures r.state.visited == sweep.visited && |r.state.mask| == |sweep.mask|
  {
    if !IsLive(m, s) then
      Done(sweep, ())
    else if t.nodes[node].tokenStart + t.nodes[node].tokenLen > |t.terminalIds| then
      Failed(sweep, InternalInvariant)
    else
      var start := t.nodes[node].tokenStart;
      match SetMaskBits(sweep.mask, t.terminalIds[start..start + t.nodes[node].tokenLen])
      case None => Failed(sweep, InternalInvariant)
      case Some(mask) => Done(sweep.(mask := mask), ())
  }

  function WalkNode(t: TokenTrie, m: Machine, limit: nat, node: nat, s: MachineState,
      sweep: Sweep): (r: Outcome<Sweep, ()>)
    requires Fits(m, s) && sweep.visited <= limit
    ensures r.Done? ==> sweep.visited <= r.state.visited <= limit && |r.state.mask| == |sweep.mask|
    decreases limit - sweep.visited, 1, 0
  {
    if node >= |t.nodes| then
      Failed(sweep, InternalInvariant)
    else
      var (emitted, _) :- Emit(t, m, node, s, sweep);
      WalkEdges(t, m, limit, node, 0, s, emitted)
  }

  // The edges of `node` from number `k` on; the recognizer is at `s` at the node.
  function WalkEdges(t: TokenTrie, m: Machine, limit: nat, node: nat, k: nat, s: MachineState,
      sweep: Sweep): (r: Outcome<Sweep, ()>)
    requires Fits(m, s) && node < |t.nodes| && sweep.visited <= limit
    ensures r.Done? ==> sweep.visited <= r.state.visited <= limit && |r.state.mask| == |sweep.mask|
    decreases limit - sweep.visited, 0, t.nodes[node].edgeLen - k
  {
    if k >= t.nodes[node].edgeLen then
      Done(sweep, ())
    else
      var index := t.nodes[node].edgeStart + k;
      var observed := sweep.visited + 1;
      if index >= |t.edges| then
        Failed(sweep, InternalInvariant)
      else if observed > limit then
        Failed(sweep, LimitExceeded(MaskTraversal, observed, limit))
      else
        match TryAdvance(m, s, [t.edges[index].byte])
        case Failed(_, error) => Failed(sweep, error)
        case Done(_, Rejected) => WalkEdges(t, m, limit, node, k + 1, s, sweep.(visited := observed))
        case Done(next, _) =>
          var (below, _) :- WalkNode(t, m, limit, t.edges[index].child, next, sweep.(visited := observed));
          WalkEdges(t, m, limit, node, k + 1, s, below)
  }

  // The mask of a recognizer state, over a cleared destination.
  function MaskFrom(v: DerivedVocabulary, m: Machine, limit: nat, s: MachineState, mask: seq<bv32>): Outcome<Sweep, ()>
    requires Fits(m, s)
  {
    if IsAccepting(m, s) then
      match SetMaskBit(mask, v.eosTokenId)
      case None => Failed(Sweep(mask, 0), InternalInvariant)
      case Some(next) => WalkNode(v.trie, m, limit, 0, s, Sweep(next, 0))
    else
      WalkNode(v.trie, m, limit, 0, s, Sweep(mask, 0))
  }

  // ---------- What the walk enables ----------

  // The recognizer takes all the bytes and is live behind them.
  predicate Allows(m: Machine, s: MachineState, w: Word)
    requires Fits(m, s)
  {
    var r := Consume(m, s, w);
    r.Done? && r.value && IsLive(m, r.state)
  }

  // Below `node`, reached in state `s`, some allowed word spells `id`.
  ghost predicate Offers(t: TokenTrie, m: Machine, node: nat, s: MachineState, id: nat)
    requires TrieShape(t) && Fits(m, s)
  {
    exists w: Word :: Spells(t, node, w, id) && Allows(m, s, w)
  }

  // The same through one of the first `k` edges.
  ghost predicate OffersVia(t: TokenTrie, m: Machine, node: nat, from: nat, s: MachineState, id: nat)
    requires TrieShape(t) && Fits(m, s) && node < |t.nodes|
  {
    exists k: nat :: from <= k < t.nodes[node].edgeLen && OffersThrough(t, m, EdgesOf(t, node)[k], s, id)
  }

  ghost predicate OffersThrough(t: TokenTrie, m: Machine, e: TrieEdge, s: MachineState, id: nat)
    requires TrieShape(t) && Fits(m, s)
  {
    var r := TryAdvance(m, s, [e.byte]);
    r.Done? && r.value != Rejected && Offers(t, m, e.child, r.state, id)
  }

  lemma AllowsFirst(m: Machine, s: MachineState, w: Word)
    requires Fits(m, s) && w != []
    ensures var r := TryAdvance(m, s, [w[0]]);
            Allows(m, s, w) <==> r.Done? && r.value != Rejected && Allows(m, r.state, w[1..])
  {
    hide StepByte, IsLive;
    ConsumeSplit(m, s, [w[0]], w[1..]);
    assert [w[0]] + w[1..] == w;
  }

  // Offers unfold: the node's own ids, or those behind an edge.
  lemma OffersUnfold(t: TokenTrie, m: Machine, node: nat, s: MachineState, id: nat)
    requires TrieShape(t) && Fits(m, s) && node < |t.nodes|
    ensures Offers(t, m, node, s, id) <==> (IsLive(m, s) && id in TokensAt(t, node)) || OffersVia(t, m, node, 0, s, id)
  {
    hide StepByte, IsLive, TryAdvance, Consume, Allows;
    if Offers(t, m, node, s, id) {
      OffersSplit(t, m, node, s, id);
    }
    if IsLive(m, s) && id in TokensAt(t, node) {
      AllowsNothing(m, s);
      assert Leads(t, node, [], node);
      assert Spells(t, node, [], id);
    }
    if OffersVia(t, m, node, 0, s, id) {
      OffersJoin(t, m, node, s, id);
    }
  }

  lemma AllowsNothing(m: Machine, s: MachineState)
    requires Fits(m, s)
    ensures Allows(m, s, []) <==> IsLive(m, s)
  {
    hide IsLive;
  }

  lemma OffersSplit(t: TokenTrie, m: Machine, node: nat, s: MachineState, id: nat)
    requires TrieShape(t) && Fits(m, s) && node < |t.nodes| && Offers(t, m, node, s, id)
    ensures (IsLive(m, s) && id in TokensAt(t, node)) || OffersVia(t, m, node, 0, s, id)
  {
    hide StepByte, IsLive, TryAdvance, Consume, Allows;
    var w: Word :| Spells(t, node, w, id) && Allows(m, s, w);
    var j: nat :| j < |t.nodes| && Leads(t, node, w, j) && id in TokensAt(t, j);
    if w == [] {
      AllowsNothing(m, s);
    } else {
      var e :| e in EdgesOf(t, node) && e.byte == w[0] && Leads(t, e.child, w[1..], j);
      AllowsFirst(m, s, w);
      assert Spells(t, e.child, w[1..], id);
      var k: nat :| k < |EdgesOf(t, node)| && EdgesOf(t, node)[k] == e;
      assert OffersThrough(t, m, EdgesOf(t, node)[k], s, id);
    }
  }

  lemma OffersJoin(t: TokenTrie, m: Machine, node: nat, s: MachineState, id: nat)
    requires TrieShape(t) && Fits(m, s) && node < |t.nodes| && OffersVia(t, m, node, 0, s, id)
    ensures Offers(t, m, node, s, id)
  {
    hide StepByte, IsLive, TryAdvance, Consume, Allows, TrieShape, Spells, Fits;
    NodeInBounds(t, node);
    var k: nat :| k < t.nodes[node].edgeLen && OffersThrough(t, m, EdgesOf(t, node)[k], s, id);
    EdgeAt(t, node, k);
    var e := EdgesOf(t, node)[k];
    var r := TryAdvance(m, s, [e.byte]);
    var v: Word :| Spells(t, e.child, v, id) && Allows(m, r.state, v);
    var w := [e.byte] + v;
    assert w[0] == e.byte && w[1..] == v;
    AllowsFirst(m, s, w);
    ChildSpells(t, node, e, v, id);
  }

  lemma ChildSpells(t: TokenTrie, node: nat, e: TrieEdge, v: Word, id: nat)
    requires TrieShape(t) && node < |t.nodes| && e in EdgesOf(t, node) && Spells(t, e.child, v, id)
    ensures Spells(t, node, [e.byte] + v, id)
  {
    var j: nat :| j < |t.nodes| && Leads(t, e.child, v, j) && id in TokensAt(t, j);
    var w := [e.byte] + v;
    assert w[0] == e.byte && w[1..] == v;
    assert Leads(t, node, w, j);
  }

  lemma {:induction false} WalkNodeExact(t: TokenTrie, m: Machine, limit: nat, node: nat, s: MachineState,
      sweep: Sweep, id: nat)
    requires TrieShape(t) && Fits(m, s) && node < |t.nodes| && sweep.visited <= limit
    requires WalkNode(t, m, limit, node, s, sweep).Done?
    ensures Enabled(WalkNode(t, m, limit, node, s, sweep).state.mask, id) <==>
              Enabled(sweep.mask, id) || Offers(t, m, node, s, id)
    decreases limit - sweep.visited, 1, 0
  {
    hide IsLive, Offers, OffersVia, Enabled, WalkEdges;
    OffersUnfold(t, m, node, s, id);
    var emitted := Emit(t, m, node, s, sweep).state;
    if IsLive(m, s) {
      SetMaskBitsExact(sweep.mask, TokensAt(t, node), id);
    }
    WalkEdgesExact(t, m, limit, node, 0, s, emitted, id);
  }

  lemma {:induction false} WalkEdgesExact(t: TokenTrie, m: Machine, limit: nat, node: nat, k: nat, s: MachineState,
      sweep: Sweep, id: nat)
    requires TrieShape(t) && Fits(m, s) && node < |t.nodes| && sweep.visited <= limit && k <= t.nodes[node].edgeLen
    requires WalkEdges(t, m, limit, node, k, s, sweep).Done?
    ensures Enabled(WalkEdges(t, m, limit, node, k, s, sweep).state.mask, id) <==>
              Enabled(sweep.mask, id) || OffersVia(t, m, node, k, s, id)
    decreases limit - sweep.visited, 0, t.nodes[node].edgeLen - k
  {
    hide IsLive, Offers, Enabled, WalkNode, TryAdvance, TrieShape;
    if k < t.nodes[node].edgeLen {
      EdgeAt(t, node, k);
      var e := EdgesOf(t, node)[k];
      OffersViaUnfold(t, m, node, k, s, id);
      var observed := sweep.visited + 1;
      var r := TryAdvance(m, s, [e.byte]);
      if r.value == Rejected {
        WalkEdgesExact(t, m, limit, node, k + 1, s, sweep.(visited := observed), id);
      } else {
        WalkNodeExact(t, m, limit, e.child, r.state, sweep.(visited := observed), id);
        var below := WalkNode(t, m, limit, e.child, r.state, sweep.(visited := observed)).state;
        WalkEdgesExact(t, m, limit, node, k + 1, s, below, id);
      }
    }
  }

  lemma EdgeAt(t: TokenTrie, node: nat, k: nat)
    requires TrieShape(t) && node < |t.nodes| && k < t.nodes[node].edgeLen
    ensures t.nodes[node].edgeStart + k < |t.edges| && InBounds(t, node)
    ensures EdgesOf(t, node)[k] == t.edges[t.nodes[node].edgeStart + k] && EdgesOf(t, node)[k].child < |t.nodes|
  {
    assert InBounds(t, node);
    var e := EdgesOf(t, node)[k];
    assert e in EdgesOf(t, node);
  }

  lemma OffersViaUnfold(t: TokenTrie, m: Machine, node: nat, k: nat, s: MachineState, id: nat)
    requires TrieShape(t) && Fits(m, s) && node < |t.nodes| && k < t.nodes[node].edgeLen
    ensures OffersVia(t, m, node, k, s, id) <==>
              OffersThrough(t, m, EdgesOf(t, node)[k], s, id) || OffersVia(t, m, node, k + 1, s, id)
  {
    hide OffersThrough, TrieShape;
  }

  // Mask exactness: over a cleared mask, a successful fill enables exactly the ids of the allowed tokens,
  // and the end-of-sequence id when the recognizer accepts.
  lemma MaskExact(v: DerivedVocabulary, tokens: map<Word, seq<nat>>, eos: nat, m: Machine, limit: nat, s: MachineState,
      mask: seq<bv32>, id: nat)
    requires DerivedFrom(v, tokens, eos) && Fits(m, s) && MaskFrom(v, m, limit, s, mask).Done? && !Enabled(mask, id)
    ensures Enabled(MaskFrom(v, m, limit, s, mask).state.mask, id) <==>
              (id == eos && IsAccepting(m, s)) || exists w: Word :: HasToken(tokens, w, id) && Allows(m, s, w)
  {
    hide IsAccepting, Allows, Enabled, WalkNode, Spells;
    var start := mask;
    if IsAccepting(m, s) {
      SetMaskBitExact(mask, eos, id);
      start := SetMaskBit(mask, eos).value;
    }
    WalkNodeExact(v.trie, m, limit, 0, s, Sweep(start, 0), id);
    if w: Word :| HasToken(tokens, w, id) && Allows(m, s, w) {
      assert Spells(v.trie, 0, w, id);
    }
  }

  // ---------- A successful walk meets no limit ----------

  // Every path of the trie was tried, so reading it fails on nothing.
  lemma {:induction false} WalkNodeTries(t: TokenTrie, m: Machine, limit: nat, node: nat, s: MachineState, sweep: Sweep,
      w: Word, j: nat)
    requires TrieShape(t) && Fits(m, s) && node < |t.nodes| && sweep.visited <= limit
    requires WalkNode(t, m, limit, node, s, sweep).Done? && Leads(t, node, w, j)
    ensures Consume(m, s, w).Done?
    decreases limit - sweep.visited, 1, 0
  {
    hide IsLive, WalkEdges, StepByte;
    if w != [] {
      var e :| e in EdgesOf(t, node) && e.byte == w[0] && Leads(t, e.child, w[1..], j);
      var n: nat :| n < |EdgesOf(t, node)| && EdgesOf(t, node)[n] == e;
      WalkEdgesTries(t, m, limit, node, 0, s, Emit(t, m, node, s, sweep).state, n, w, j);
    }
  }

  lemma {:induction false} WalkEdgesTries(t: TokenTrie, m: Machine, limit: nat, node: nat, k: nat, s: MachineState,
      sweep: Sweep, n: nat, w: Word, j: nat)
    requires TrieShape(t) && Fits(m, s) && node < |t.nodes| && sweep.visited <= limit
    requires WalkEdges(t, m, limit, node, k, s, sweep).Done? && k <= n < t.nodes[node].edgeLen && w != []
    requires EdgesOf(t, node)[n].byte == w[0] && Leads(t, EdgesOf(t, node)[n].child, w[1..], j)
    ensures Consume(m, s, w).Done?
    decreases limit - sweep.visited, 0, t.nodes[node].edgeLen - k
  {
    hide IsLive, WalkNode, TryAdvance, StepByte, TrieShape, Leads;
    EdgeAt(t, node, k);
    var e := EdgesOf(t, node)[k];
    var counted := sweep.(visited := sweep.visited + 1);
    var r := TryAdvance(m, s, [e.byte]);
    if k == n {
      if r.value != Rejected {
        WalkNodeTries(t, m, limit, e.child, r.state, counted, w[1..], j);
      }
      FirstThenRest(m, s, w);
    } else {
      var next := if r.value != Rejected then WalkNode(t, m, limit, e.child, r.state, counted).state else counted;
      WalkEdgesTries(t, m, limit, node, k + 1, s, next, n, w, j);
    }
  }

  lemma FirstThenRest(m: Machine, s: MachineState, w: Word)
    requires Fits(m, s) && w != [] && TryAdvance(m, s, [w[0]]).Done?
    requires TryAdvance(m, s, [w[0]]).value != Rejected ==> Consume(m, TryAdvance(m, s, [w[0]]).state, w[1..]).Done?
    ensures Consume(m, s, w).Done?
  {
    hide StepByte, IsAccepting;
    ConsumeSplit(m, s, [w[0]], w[1..]);
    assert [w[0]] + w[1..] == w;
  }

  // If the mask could be filled, no token of the vocabulary runs into a limit from here.
  lemma MaskTries(v: DerivedVocabulary, tokens: map<Word, seq<nat>>, eos: nat, m: Machine, limit: nat, s: MachineState,
      mask: seq<bv32>, w: Word, id: nat)
    requires DerivedFrom(v, tokens, eos) && Fits(m, s) && MaskFrom(v, m, limit, s, mask).Done?
    requires HasToken(tokens, w, id)
    ensures Consume(m, s, w).Done?
  {
    hide IsAccepting, WalkNode, Leads, Consume;
    var start := if IsAccepting(m, s) then SetMaskBit(mask, eos).value else mask;
    assert Spells(v.trie, 0, w, id);
    var j: nat :| j < |v.trie.nodes| && Leads(v.trie, 0, w, j) && id in TokensAt(v.trie, j);
    WalkNodeTries(v.trie, m, limit, 0, s, Sweep(start, 0), w, j);
  }

  // ---------- Wider destinations ----------

  // Words behind the mask stay as they are.
  function Padded(r: Outcome<Sweep, ()>, pad: seq<bv32>): Outcome<Sweep, ()> {
    match r
    case Failed(sweep, error) => Failed(sweep.(mask := sweep.mask + pad), error)
    case Done(sweep, value) => Done(sweep.(mask := sweep.mask + pad), value)
  }

  // Every id spelled below the node is a bit of the first `words` words.
  ghost predicate IdsFit(t: TokenTrie, node: nat, words: nat)
    requires TrieShape(t)
  {
    forall w: Word, id: nat :: Spells(t, node, w, id) ==> id / 32 < words
  }

  lemma SetMaskBitPad(mask: seq<bv32>, pad: seq<bv32>, id: nat)
    requires id / 32 < |mask|
    ensures SetMaskBit(mask + pad, id) == Some(SetMaskBit(mask, id).value + pad)
  {
    hide WithBit;
    assert (mask + pad)[id / 32 := WithBit(mask[id / 32], id % 32)] ==
      mask[id / 32 := WithBit(mask[id / 32], id % 32)] + pad;
  }

  lemma {:induction false} SetMaskBitsPad(mask: seq<bv32>, pad: seq<bv32>, ids: seq<nat>)
    requires forall id <- ids :: id / 32 < |mask|
    ensures SetMaskBits(mask, ids).Some? && SetMaskBits(mask + pad, ids) == Some(SetMaskBits(mask, ids).value + pad)
    decreases |ids|
  {
    hide WithBit;
    if ids != [] {
      assert ids[0] in ids && forall id <- ids[1..] :: id in ids;
      var next := SetMaskBit(mask, ids[0]).value;
      SetMaskBitPad(mask, pad, ids[0]);
      SetMaskBitsPad(next, pad, ids[1..]);
    }
  }

  lemma OwnIdsFit(t: TokenTrie, node: nat, words: nat)
    requires TrieShape(t) && node < |t.nodes| && IdsFit(t, node, words)
    ensures forall id <- TokensAt(t, node) :: id / 32 < words
  {
    forall id <- TokensAt(t, node) ensures id / 32 < words {
      assert Leads(t, node, [], node);
      assert Spells(t, node, [], id);
    }
  }

  lemma ChildIdsFit(t: TokenTrie, node: nat, words: nat, e: TrieEdge)
    requires TrieShape(t) && node < |t.nodes| && IdsFit(t, node, words) && e in EdgesOf(t, node)
    ensures IdsFit(t, e.child, words)
  {
    forall w: Word, id: nat | Spells(t, e.child, w, id) ensures id / 32 < words {
      ChildSpells(t, node, e, w, id);
    }
  }

  lemma {:induction false} WalkNodePad(t: TokenTrie, m: Machine, limit: nat, node: nat, s: MachineState, sweep: Sweep,
      pad: seq<bv32>)
    requires TrieShape(t) && Fits(m, s) && node < |t.nodes| && sweep.visited <= limit && IdsFit(t, node, |sweep.mask|)
    ensures WalkNode(t, m, limit, node, s, sweep.(mask := sweep.mask + pad)) ==
            Padded(WalkNode(t, m, limit, node, s, sweep), pad)
    decreases limit - sweep.visited, 1, 0
  {
    hide IsLive, WalkEdges, IdsFit, TrieShape;
    OwnIdsFit(t, node, |sweep.mask|);
    assert InBounds(t, node) by { NodeInBounds(t, node); }
    SetMaskBitsPad(sweep.mask, pad, TokensAt(t, node));
    var emitted := Emit(t, m, node, s, sweep).state;
    assert Emit(t, m, node, s, sweep.(mask := sweep.mask + pad)) == Done(emitted.(mask := emitted.mask + pad), ());
    WalkEdgesPad(t, m, limit, node, 0, s, emitted, pad);
  }

  lemma NodeInBounds(t: TokenTrie, node: nat)
    requires TrieShape(t) && node < |t.nodes|
    ensures InBounds(t, node)
  {
  }

  lemma {:induction false} WalkEdgesPad(t: TokenTrie, m: Machine, limit: nat, node: nat, k: nat, s: MachineState,
      sweep: Sweep, pad: seq<bv32>)
    requires TrieShape(t) && Fits(m, s) && node < |t.nodes| && sweep.visited <= limit && IdsFit(t, node, |sweep.mask|)
    ensures WalkEdges(t, m, limit, node, k, s, sweep.(mask := sweep.mask + pad)) ==
            Padded(WalkEdges(t, m, limit, node, k, s, sweep), pad)
    decreases limit - sweep.visited, 0, t.nodes[node].edgeLen - k
  {
    hide IsLive, WalkNode, TryAdvance, TrieShape, IdsFit;
    if k < t.nodes[node].edgeLen && sweep.visited < limit {
      EdgeAt(t, node, k);
      var e := EdgesOf(t, node)[k];
      var counted := sweep.(visited := sweep.visited + 1);
      var r := TryAdvance(m, s, [e.byte]);
      if r.Done? && r.value == Rejected {
        WalkEdgesPad(t, m, limit, node, k + 1, s, counted, pad);
      } else if r.Done? {
        ChildIdsFit(t, node, |sweep.mask|, e);
        WalkNodePad(t, m, limit, e.child, r.state, counted, pad);
        var below := WalkNode(t, m, limit, e.child, r.state, counted);
        if below.Done? {
          WalkEdgesPad(t, m, limit, node, k + 1, s, below.state, pad);
        }
      }
    }
  }

  // A destination longer than the mask gets the same mask, and the rest is untouched.
  lemma MaskFromPad(v: DerivedVocabulary, tokens: map<Word, seq<nat>>, eos: nat, m: Machine, limit: nat,
      s: MachineState, mask: seq<bv32>, pad: seq<bv32>)
    requires DerivedFrom(v, tokens, eos) && Fits(m, s) && |mask| == v.maskWords
    ensures MaskFrom(v, m, limit, s, mask + pad) == Padded(MaskFrom(v, m, limit, s, mask), pad)
  {
    hide IsAccepting, WalkNode, Spells, WithBit;
    forall w: Word, id: nat | Spells(v.trie, 0, w, id) ensures id / 32 < |mask| {
      assert HasToken(tokens, w, id);
    }
    var start := mask;
    if IsAccepting(m, s) {
      start := SetMaskBit(mask, eos).value;
      SetMaskBitPad(mask, pad, eos);
    }
    WalkNodePad(v.trie, m, limit, 0, s, Sweep(start, 0), pad);
  }
}
