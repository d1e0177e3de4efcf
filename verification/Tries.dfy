/**
 The flat token trie: nodes own a slice of the edge array and a slice of the terminal-id array.
 What it means is the relation between byte words and token ids that its paths spell.
 */
module Tries {
  import opened Grammars

  datatype TrieNode = TrieNode(edgeStart: nat, edgeLen: nat, tokenStart: nat, tokenLen: nat)

  datatype TrieEdge = TrieEdge(byte: Byte, child: nat)

  datatype TokenTrie = TokenTrie(nodes: seq<TrieNode>, edges: seq<TrieEdge>, terminalIds: seq<nat>)

  datatype DerivedVocabulary = DerivedVocabulary(
    trie: TokenTrie, reverse: seq<Option<Word>>, eosTokenId: nat, vocabSize: nat, maskWords: nat) {

    function SharedBytes(id: nat): Option<Word> {
      if id < |reverse| then reverse[id] else None
    }
  }

  // The slices of node `i` lie in their arrays.
  predicate InBounds(t: TokenTrie, i: nat)
    requires i < |t.nodes|
  {
    t.nodes[i].edgeStart + t.nodes[i].edgeLen <= |t.edges|
    && t.nodes[i].tokenStart + t.nodes[i].tokenLen <= |t.terminalIds|
  }

  function EdgesOf(t: TokenTrie, i: nat): seq<TrieEdge>
    requires i < |t.nodes| && InBounds(t, i)
  {
    t.edges[t.nodes[i].edgeStart..t.nodes[i].edgeStart + t.nodes[i].edgeLen]
  }

  function TokensAt(t: TokenTrie, i: nat): seq<nat>
    requires i < |t.nodes| && InBounds(t, i)
  {
    t.terminalIds[t.nodes[i].tokenStart..t.nodes[i].tokenStart + t.nodes[i].tokenLen]
  }

  // Every slice is in bounds and children come after their parents.
  ghost predicate TrieShape(t: TokenTrie) {
    && t.nodes != []
    && (forall i: nat :: i < |t.nodes| ==> InBounds(t, i))
    && (forall i: nat, e :: i < |t.nodes| && e in EdgesOf(t, i) ==> i < e.child < |t.nodes|)
  }

  // The bytes `w` lead from node `i` to node `j`.
  ghost predicate Leads(t: TokenTrie, i: nat, w: Word, j: nat)
    requires TrieShape(t)
    decreases |w|
  {
    i < |t.nodes| &&
    if w == [] then i == j
    else exists e :: e in EdgesOf(t, i) && e.byte == w[0] && Leads(t, e.child, w[1..], j)
  }

  // Below node `i`, the bytes `w` spell token `id`.
  ghost predicate Spells(t: TokenTrie, i: nat, w: Word, id: nat)
    requires TrieShape(t)
  {
    exists j: nat :: j < |t.nodes| && Leads(t, i, w, j) && id in TokensAt(t, j)
  }

  predicate HasToken(tokens: map<Word, seq<nat>>, w: Word, id: nat) {
    w in tokens && id in tokens[w]
  }

  ghost predicate InVocabulary(tokens: map<Word, seq<nat>>, id: nat) {
    exists w: Word :: HasToken(tokens, w, id)
  }

  // The trie spells exactly the vocabulary.
  ghost predicate Enumerates(t: TokenTrie, tokens: map<Word, seq<nat>>)
    requires TrieShape(t)
  {
    forall w: Word, id: nat :: Spells(t, 0, w, id) <==> HasToken(tokens, w, id)
  }

  ghost predicate ReverseExact(reverse: seq<Option<Word>>, tokens: map<Word, seq<nat>>) {
    && (forall w: Word, id: nat :: HasToken(tokens, w, id) ==> id < |reverse|)
    && (forall w: Word, id: nat :: id < |reverse| ==> (reverse[id] == Some(w) <==> HasToken(tokens, w, id)))
  }

  // What a derived vocabulary is: the trie and the reverse map of `tokens`, and a mask wide enough for every id.
  ghost predicate DerivedFrom(v: DerivedVocabulary, tokens: map<Word, seq<nat>>, eos: nat) {
    && TrieShape(v.trie) && Enumerates(v.trie, tokens) && ReverseExact(v.reverse, tokens)
    && |v.reverse| == v.vocabSize && v.eosTokenId == eos < v.vocabSize
    && (v.vocabSize == eos + 1 || InVocabulary(tokens, v.vocabSize - 1))
    && v.maskWords == (v.vocabSize + 31) / 32
    && [] !in tokens
  }
}
