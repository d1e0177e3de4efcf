/**
 Deriving the trie and the reverse map from a vocabulary: the tokens are inserted in byte order into a
 pointer trie, which is then laid out flat.
 */
module VocabularyBuild {
  import opened Grammars
  import opened CompileErrors
  import opened Tries
  import opened VocabularySizes

  datatype VocabularyError = EmptyTokenDisallowed | AmbiguousTokenId(id: nat) | OverLimit(observed: nat, limit: nat)

  datatype VocabularyResult = Derived(vocabulary: DerivedVocabulary) | Refused(error: VocabularyError)

  datatype BuildNode = BuildNode(children: map<Byte, nat>, terminalIds: seq<nat>)

  // ---------- Orders ----------

  predicate WordBefore(u: Word, v: Word)
    decreases |u|
  {
    v != [] && (u == [] || u[0] < v[0] || (u[0] == v[0] && WordBefore(u[1..], v[1..])))
  }

  lemma {:induction false} WordOrder(u: Word, v: Word)
    ensures WordBefore(u, v) || u == v || WordBefore(v, u)
    ensures !(WordBefore(u, v) && WordBefore(v, u))
    decreases |u|
  {
    if u != [] && v != [] {
      WordOrder(u[1..], v[1..]);
      assert u == [u[0]] + u[1..] && v == [v[0]] + v[1..];
    }
  }

  lemma {:induction false} WordOrderTransitive(u: Word, v: Word, w: Word)
    requires WordBefore(u, v) && WordBefore(v, w)
    ensures WordBefore(u, w)
    decreases |u|
  {
    if u != [] && u[0] == v[0] == w[0] {
      WordOrderTransitive(u[1..], v[1..], w[1..]);
    }
  }

  ghost predicate Ascending(words: seq<Word>) {
    forall i, j :: 0 <= i < j < |words| ==> WordBefore(words[i], words[j])
  }

  method SortWords(words: set<Word>) returns (sorted: seq<Word>)
    ensures Ascending(sorted) && forall w :: w in sorted <==> w in words
  {
    sorted := [];
    var left := words;
    while left != {}
      invariant left <= words && Ascending(sorted)
      invariant forall w :: w in sorted <==> w in words - left
      decreases left
    {
      var word :| word in left;
      left := left - {word};
      sorted := InsertWord(word, sorted);
    }
  }

  method InsertWord(word: Word, words: seq<Word>) returns (sorted: seq<Word>)
    requires Ascending(words) && word !in words
    ensures Ascending(sorted) && forall w :: w in sorted <==> w == word || w in words
  {
    var i := 0;
    while i < |words| && WordBefore(words[i], word)
      invariant 0 <= i <= |words| && forall k :: 0 <= k < i ==> WordBefore(words[k], word)
    {
      i := i + 1;
    }
    if i < |words| {
      WordOrder(words[i], word);
      forall k | i <= k < |words| ensures WordBefore(word, words[k]) {
        if k > i {
          WordOrderTransitive(word, words[i], words[k]);
        }
      }
    }
    sorted := words[..i] + [word] + words[i..];
  }

  function InsertId(id: nat, ids: seq<nat>): (r: seq<nat>)
    ensures forall k :: k in r <==> k == id || k in ids
  {
    if ids == [] then [id]
    else if id == ids[0] then ids
    else if id < ids[0] then [id] + ids
    else [ids[0]] + InsertId(id, ids[1..])
  }

  function SortIds(ids: seq<nat>): (r: seq<nat>)
    ensures forall k :: k in r <==> k in ids
  {
    if ids == [] then [] else InsertId(ids[0], SortIds(ids[1..]))
  }

  function MaxId(ids: seq<nat>, least: nat): (r: nat)
    ensures r >= least && (r == least || r in ids) && forall id <- ids :: id <= r
  {
    if ids == [] then least
    else
      var rest := MaxId(ids[1..], least);
      assert forall id <- ids :: id == ids[0] || id in ids[1..];
      if ids[0] > rest then ids[0] else rest
  }

  // ---------- The pointer trie ----------

  // Node `i` stands for the word `labels[i]`; the nodes are exactly a tree of labels.
  ghost predicate Labelled(nodes: seq<BuildNode>, labels: seq<Word>) {
    && |nodes| == |labels| > 0 && labels[0] == []
    && (forall i: nat, b :: i < |nodes| && b in nodes[i].children ==> ChildLabelled(nodes, labels, i, b))
    && (forall j: nat :: 0 < j < |nodes| ==> HasParent(nodes, labels, j))
  }

  ghost predicate HasParent(nodes: seq<BuildNode>, labels: seq<Word>, j: nat)
    requires j < |nodes| == |labels|
  {
    exists i: nat :: i < j && IsParent(nodes, labels, i, j)
  }

  ghost predicate ChildLabelled(nodes: seq<BuildNode>, labels: seq<Word>, i: nat, b: Byte)
    requires i < |nodes| == |labels| && b in nodes[i].children
  {
    i < nodes[i].children[b] < |nodes| && labels[nodes[i].children[b]] == labels[i] + [b]
  }

  ghost predicate IsParent(nodes: seq<BuildNode>, labels: seq<Word>, i: nat, j: nat)
    requires i < |nodes| == |labels| && j < |nodes|
  {
    labels[j] != [] && var b := labels[j][|labels[j]| - 1];
    b in nodes[i].children && nodes[i].children[b] == j && labels[j] == labels[i] + [b]
  }

  lemma {:induction false} LabelsDistinct(nodes: seq<BuildNode>, labels: seq<Word>, i: nat, j: nat)
    requires Labelled(nodes, labels) && i < |nodes| && j < |nodes| && labels[i] == labels[j]
    ensures i == j
    decreases |labels[i]|
  {
    if i != 0 || j != 0 {
      assert i != 0 ==> HasParent(nodes, labels, i);
      assert j != 0 ==> HasParent(nodes, labels, j);
      var p: nat :| p < i && IsParent(nodes, labels, p, i);
      var q: nat :| q < j && IsParent(nodes, labels, q, j);
      assert labels[p] == labels[i][..|labels[i]| - 1] == labels[q];
      LabelsDistinct(nodes, labels, p, q);
    }
  }

  // The nodes hold exactly the ids of the words in `done`, each at the node of its word.
  ghost predicate Filled(nodes: seq<BuildNode>, labels: seq<Word>, tokens: map<Word, seq<nat>>, done: set<Word>) {
    && Labelled(nodes, labels)
    && (forall i: nat, id: nat {:trigger id in nodes[i].terminalIds} :: i < |nodes| ==>
          (id in nodes[i].terminalIds <==> labels[i] in done && HasToken(tokens, labels[i], id)))
    && (forall w <- done :: w in labels)
  }

  // Growing adds nodes and children and touches no ids.
  ghost predicate Grown(nodes: seq<BuildNode>, labels: seq<Word>, nodes': seq<BuildNode>, labels': seq<Word>) {
    && |nodes| == |labels| && |nodes'| == |labels'| && labels <= labels' && |nodes| <= |nodes'|
    && (forall i: nat :: i < |nodes| ==> nodes'[i].terminalIds == nodes[i].terminalIds)
    && (forall i: nat :: |nodes| <= i < |nodes'| ==> nodes'[i].terminalIds == [])
  }

  lemma AddChild(nodes: seq<BuildNode>, labels: seq<Word>, node: nat, byte: Byte)
    requires Labelled(nodes, labels) && node < |nodes| && byte !in nodes[node].children
    ensures var parent := nodes[node].(children := nodes[node].children[byte := |nodes|]);
            Labelled(nodes[node := parent] + [BuildNode(map[], [])], labels + [labels[node] + [byte]])
  {
    var parent := nodes[node].(children := nodes[node].children[byte := |nodes|]);
    var more, labels' := nodes[node := parent] + [BuildNode(map[], [])], labels + [labels[node] + [byte]];
    forall i: nat, b | i < |more| && b in more[i].children ensures ChildLabelled(more, labels', i, b) {
      if i < |nodes| && b in nodes[i].children {
        assert ChildLabelled(nodes, labels, i, b);
      }
    }
    forall j: nat | 0 < j < |more| ensures HasParent(more, labels', j) {
      if j < |nodes| {
        assert HasParent(nodes, labels, j);
        var i: nat :| i < j && IsParent(nodes, labels, i, j);
        assert IsParent(more, labels', i, j);
      } else {
        assert IsParent(more, labels', node, j);
      }
    }
  }

  // Every label is a prefix of one of the words.
  ghost predicate Spanned(labels: seq<Word>, words: set<Word>) {
    forall l <- labels :: l in Prefixes(words)
  }

  // One more prefix without a node: the words have at least so many.
  lemma OneMorePrefix(nodes: seq<BuildNode>, labels: seq<Word>, words: set<Word>, node: nat, byte: Byte)
    requires Labelled(nodes, labels) && Spanned(labels, words) && node < |nodes| && byte !in nodes[node].children
    requires labels[node] + [byte] in Prefixes(words)
    ensures |nodes| + 1 <= |Prefixes(words)|
  {
    hide Prefixes;
    AddChild(nodes, labels, node, byte);
    var parent := nodes[node].(children := nodes[node].children[byte := |nodes|]);
    LabelCount(nodes[node := parent] + [BuildNode(map[], [])], labels + [labels[node] + [byte]], words);
  }

  lemma LabelCount(nodes: seq<BuildNode>, labels: seq<Word>, words: set<Word>)
    requires Labelled(nodes, labels) && Spanned(labels, words)
    ensures |nodes| <= |Prefixes(words)|
    ensures (forall w <- Prefixes(words) :: w in labels) ==> |nodes| == |Prefixes(words)|
  {
    hide Prefixes;
    forall i, j | 0 <= i < j < |labels| ensures labels[i] != labels[j] {
      if labels[i] == labels[j] {
        LabelsDistinct(nodes, labels, i, j);
      }
    }
    DistinctCount(labels);
    SmallerSet(WordsOf(labels), Prefixes(words));
    if forall w <- Prefixes(words) :: w in labels {
      assert WordsOf(labels) == Prefixes(words);
    }
  }

  lemma {:induction false} DistinctCount(labels: seq<Word>)
    requires forall i, j :: 0 <= i < j < |labels| ==> labels[i] != labels[j]
    ensures |WordsOf(labels)| == |labels|
    decreases |labels|
  {
    if labels != [] {
      var front, last := labels[..|labels| - 1], labels[|labels| - 1];
      DistinctCount(front);
      assert WordsOf(labels) == WordsOf(front) + {last} && last !in WordsOf(front);
    }
  }

  // The prefixes of a label are labels.
  lemma {:induction false} PrefixLabelled(nodes: seq<BuildNode>, labels: seq<Word>, j: nat, k: nat)
    requires Labelled(nodes, labels) && j < |labels| && k <= |labels[j]|
    ensures labels[j][..k] in labels
    decreases |labels[j]|
  {
    var w := labels[j];
    if k == |w| {
      assert w[..k] == w;
    } else {
      assert HasParent(nodes, labels, j);
      var i: nat :| i < j && IsParent(nodes, labels, i, j);
      assert w[..k] == labels[i][..k];
      PrefixLabelled(nodes, labels, i, k);
    }
  }

  // Walk the word from the root, adding the nodes that are missing.
  method InsertPath(nodes: seq<BuildNode>, ghost labels: seq<Word>, word: Word, limits: CompileLimits,
      ghost words: set<Word>)
    returns (grown: seq<BuildNode>, ghost labels': seq<Word>, node: nat, error: Option<VocabularyError>)
    requires Labelled(nodes, labels) && Spanned(labels, words) && word in words
    ensures error.None? ==>
            Labelled(grown, labels') && Grown(nodes, labels, grown, labels') && node < |grown| && labels'[node] == word
    ensures error.None? ==> Spanned(labels', words) && (|grown| == |nodes| || |grown| <= limits.maxTrieNodes)
    ensures error.None? && word != [] ==> |grown| > 1
    ensures error.Some? ==> error.value.OverLimit? && error.value.limit == limits.maxTrieNodes
                            && error.value.limit < error.value.observed <= |Prefixes(words)|
  {
    hide Prefixes;
    grown, labels', node := nodes, labels, 0;
    for k := 0 to |word|
      invariant Labelled(grown, labels') && Grown(nodes, labels, grown, labels')
      invariant node < |grown| && labels'[node] == word[..k]
      invariant Spanned(labels', words) && (|grown| == |nodes| || |grown| <= limits.maxTrieNodes)
    {
      var byte := word[k];
      assert word[..k + 1] == word[..k] + [byte];
      PrefixIn(words, word, k + 1);
      if byte in grown[node].children {
        assert ChildLabelled(grown, labels', node, byte);
        node := grown[node].children[byte];
      } else {
        var child := |grown|;
        OneMorePrefix(grown, labels', words, node, byte);
        if child + 1 > limits.maxTrieNodes {
          return grown, labels', node, Some(OverLimit(child + 1, limits.maxTrieNodes));
        }
        AddChild(grown, labels', node, byte);
        labels' := labels' + [labels'[node] + [byte]];
        grown := grown[node := grown[node].(children := grown[node].children[byte := child])] + [BuildNode(map[], [])];
        node := child;
      }
    }
    assert word[..|word|] == word;
    error := None;
  }

  // ---------- The reverse map ----------

  // The ids of the words in `done`, and the first `upto` ids of `word`, are mapped back.
  ghost predicate ReverseUpto(reverse: seq<Option<Word>>, tokens: map<Word, seq<nat>>, done: set<Word>, word: Word,
      ids: seq<nat>)
  {
    forall w: Word, id: nat {:trigger reverse[id], HasToken(tokens, w, id)} :: id < |reverse| ==>
      (reverse[id] == Some(w) <==> (w in done && HasToken(tokens, w, id)) || (w == word && id in ids))
  }

  ghost predicate Ambiguous(tokens: map<Word, seq<nat>>, id: nat) {
    exists u: Word, v: Word :: u != v && HasToken(tokens, u, id) && HasToken(tokens, v, id)
  }

  // Every id below the vocabulary width fits the reverse map.
  ghost predicate Fitting(tokens: map<Word, seq<nat>>, width: nat) {
    forall w: Word, id: nat :: HasToken(tokens, w, id) ==> id < width
  }

  lemma MapBack(reverse: seq<Option<Word>>, tokens: map<Word, seq<nat>>, done: set<Word>, word: Word, ids: seq<nat>,
      id: nat)
    requires ReverseUpto(reverse, tokens, done, word, ids) && id < |reverse|
    requires word !in done && HasToken(tokens, word, id)
    ensures reverse[id].Some? && reverse[id].value != word ==> Ambiguous(tokens, id)
    ensures reverse[id] == Some(word) ==> ReverseUpto(reverse, tokens, done, word, ids + [id])
    ensures reverse[id] == None ==> ReverseUpto(reverse[id := Some(word)], tokens, done, word, ids + [id])
  {
    if reverse[id].Some? {
      assert reverse[id] == Some(reverse[id].value);
      assert reverse[id].value == word || HasToken(tokens, reverse[id].value, id);
    } else {
      forall w: Word ensures !(w in done && HasToken(tokens, w, id)) && !(w == word && id in ids) {
        assert reverse[id] != Some(w);
        assert HasToken(tokens, w, id) || true;
      }
    }
  }

  // Map every id of `word` back to it.
  method MapIds(reverse: seq<Option<Word>>, tokens: map<Word, seq<nat>>, ghost done: set<Word>, word: Word,
      ids: seq<nat>)
    returns (filled: seq<Option<Word>>, error: Option<VocabularyError>)
    requires ReverseUpto(reverse, tokens, done, word, []) && word !in done && word in tokens
    requires Fitting(tokens, |reverse|) && forall id :: id in ids <==> id in tokens[word]
    ensures |filled| == |reverse|
    ensures error.None? ==> ReverseUpto(filled, tokens, done + {word}, word, [])
    ensures error.Some? ==> error.value.AmbiguousTokenId? && Ambiguous(tokens, error.value.id)
  {
    filled := reverse;
    for k := 0 to |ids|
      invariant |filled| == |reverse| && ReverseUpto(filled, tokens, done, word, ids[..k])
    {
      var id := ids[k];
      assert HasToken(tokens, word, id);
      assert ids[..k + 1] == ids[..k] + [id];
      MapBack(filled, tokens, done, word, ids[..k], id);
      if filled[id].Some? && filled[id].value != word {
        return filled, Some(AmbiguousTokenId(id));
      }
      if filled[id].None? {
        filled := filled[id := Some(word)];
      }
    }
    assert ids[..|ids|] == ids;
    assert forall id: nat :: id in ids <==> HasToken(tokens, word, id);
    error := None;
  }

  // ---------- Filling the trie ----------

  lemma FillNode(nodes: seq<BuildNode>, labels: seq<Word>, nodes': seq<BuildNode>, labels': seq<Word>,
      tokens: map<Word, seq<nat>>, done: set<Word>, word: Word, node: nat, ids: seq<nat>)
    requires Filled(nodes, labels, tokens, done) && word !in done && word in tokens
    requires Labelled(nodes', labels') && Grown(nodes, labels, nodes', labels')
    requires node < |nodes'| && labels'[node] == word && forall id :: id in ids <==> id in tokens[word]
    ensures var full := nodes'[node := nodes'[node].(terminalIds := nodes'[node].terminalIds + ids)];
            Filled(full, labels', tokens, done + {word})
  {
    var full := nodes'[node := nodes'[node].(terminalIds := nodes'[node].terminalIds + ids)];
    SameChildren(nodes', labels', full);
    forall i: nat, id: nat | i < |full|
      ensures id in full[i].terminalIds <==> labels'[i] in done + {word} && HasToken(tokens, labels'[i], id)
    {
      if i < |nodes| {
        assert id in nodes[i].terminalIds <==> labels[i] in done && HasToken(tokens, labels[i], id);
        assert labels'[i] == labels[i];
      } else if labels'[i] in done {
        var k :| 0 <= k < |labels| && labels[k] == labels'[i];
        LabelsDistinct(nodes', labels', k, i);
      }
      if labels'[i] == word {
        LabelsDistinct(nodes', labels', i, node);
      }
    }
    forall w <- done + {word} ensures w in labels' {
      if w != word {
        assert w in labels;
      } else {
        assert labels'[node] == word;
      }
    }
  }

  lemma SameChildren(nodes: seq<BuildNode>, labels: seq<Word>, full: seq<BuildNode>)
    requires Labelled(nodes, labels) && |full| == |nodes|
    requires forall i: nat :: i < |nodes| ==> full[i].children == nodes[i].children
    ensures Labelled(full, labels)
  {
    forall i: nat, b | i < |full| && b in full[i].children ensures ChildLabelled(full, labels, i, b) {
      assert ChildLabelled(nodes, labels, i, b);
    }
    forall j: nat | 0 < j < |full| ensures HasParent(full, labels, j) {
      assert HasParent(nodes, labels, j);
      var i: nat :| i < j && IsParent(nodes, labels, i, j);
      assert IsParent(full, labels, i, j);
    }
  }

  lemma NothingFilled(tokens: map<Word, seq<nat>>, width: nat)
    ensures Filled([BuildNode(map[], [])], [[]], tokens, {})
    ensures ReverseUpto(seq(width, _ => None), tokens, {}, [], [])
  {
  }

  lemma AnyWord(reverse: seq<Option<Word>>, tokens: map<Word, seq<nat>>, done: set<Word>, word: Word, other: Word)
    requires ReverseUpto(reverse, tokens, done, word, [])
    ensures ReverseUpto(reverse, tokens, done, other, [])
  {
  }

  // What stops the filling: an id with two byte strings, or more prefixes than nodes allowed.
  ghost predicate FillFails(tokens: map<Word, seq<nat>>, limits: CompileLimits, error: VocabularyError) {
    match error
    case EmptyTokenDisallowed => false
    case AmbiguousTokenId(id) => Ambiguous(tokens, id)
    case OverLimit(observed, limit) =>
      limit == limits.maxTrieNodes && tokens != map[] && limit < observed <= |Prefixes(tokens.Keys)|
  }

  // The path of one word, and its ids at the end of it.
  method FillWord(nodes0: seq<BuildNode>, ghost labels0: seq<Word>, reverse0: seq<Option<Word>>,
      tokens: map<Word, seq<nat>>, ghost done: set<Word>, word: Word, limits: CompileLimits)
    returns (nodes: seq<BuildNode>, ghost labels: seq<Word>, reverse: seq<Option<Word>>, error: Option<VocabularyError>)
    requires Filled(nodes0, labels0, tokens, done) && Spanned(labels0, tokens.Keys)
    requires ReverseUpto(reverse0, tokens, done, [], []) && Fitting(tokens, |reverse0|)
    requires word in tokens && word !in done
    ensures error.None? ==>
            && Filled(nodes, labels, tokens, done + {word}) && Spanned(labels, tokens.Keys)
            && |reverse| == |reverse0| && ReverseUpto(reverse, tokens, done + {word}, [], [])
            && (|nodes| == |nodes0| || |nodes| <= limits.maxTrieNodes) && (word != [] ==> |nodes| > 1)
    ensures error.Some? ==> FillFails(tokens, limits, error.value)
  {
    hide Filled, ReverseUpto, Fitting, Labelled, Grown, Prefixes, Spanned;
    nodes, labels, reverse := nodes0, labels0, reverse0;
    FilledLabelled(nodes, labels, tokens, done);
    var grown, node;
    ghost var labels';
    grown, labels', node, error := InsertPath(nodes, labels, word, limits, tokens.Keys);
    if error.Some? {
      return;
    }
    var ids := SortIds(tokens[word]);
    AnyWord(reverse, tokens, done, [], word);
    reverse, error := MapIds(reverse, tokens, done, word, ids);
    if error.Some? {
      return;
    }
    FillNode(nodes, labels, grown, labels', tokens, done, word, node, ids);
    nodes, labels := grown[node := grown[node].(terminalIds := grown[node].terminalIds + ids)], labels';
    AnyWord(reverse, tokens, done + {word}, word, []);
    error := None;
  }

  method Fill(tokens: map<Word, seq<nat>>, words: seq<Word>, width: nat, limits: CompileLimits)
    returns (nodes: seq<BuildNode>, ghost labels: seq<Word>, reverse: seq<Option<Word>>, error: Option<VocabularyError>)
    requires Ascending(words) && Fitting(tokens, width) && forall w :: w in words <==> w in tokens
    ensures error.None? ==> Filled(nodes, labels, tokens, tokens.Keys) && |reverse| == width
                            && ReverseUpto(reverse, tokens, tokens.Keys, [], [])
    ensures error.None? ==> |nodes| == |Prefixes(tokens.Keys)|
    ensures error.None? && tokens != map[] && [] !in tokens ==> |nodes| <= limits.maxTrieNodes
    ensures error.Some? ==> FillFails(tokens, limits, error.value)
  {
    hide Filled, ReverseUpto, Fitting, Labelled, Grown, Prefixes, Spanned, FillFails;
    nodes, labels, reverse := [BuildNode(map[], [])], [[]], seq(width, _ => None);
    NothingFilled(tokens, width);
    RootSpanned(tokens.Keys);
    ghost var done: set<Word> := {};
    for k := 0 to |words|
      invariant done == WordsOf(words[..k])
      invariant Spanned(labels, tokens.Keys)
      invariant if k == 0 then |nodes| == 1 else [] !in tokens ==> 1 < |nodes| <= limits.maxTrieNodes
      invariant Filled(nodes, labels, tokens, done) && |reverse| == width && ReverseUpto(reverse, tokens, done, [], [])
    {
      var word := words[k];
      assert word in tokens;
      NotYetDone(words, k);
      nodes, labels, reverse, error := FillWord(nodes, labels, reverse, tokens, done, word, limits);
      if error.Some? {
        return;
      }
      assert words[..k + 1] == words[..k] + [word];
      done := done + {word};
    }
    assert words[..|words|] == words;
    assert done == tokens.Keys;
    FilledSize(nodes, labels, tokens);
    error := None;
  }

  lemma RootSpanned(words: set<Word>)
    ensures Spanned([[]], words)
  {
  }

  // There is a node for every prefix and for nothing else.
  lemma FilledSize(nodes: seq<BuildNode>, labels: seq<Word>, tokens: map<Word, seq<nat>>)
    requires Filled(nodes, labels, tokens, tokens.Keys) && Spanned(labels, tokens.Keys)
    ensures |nodes| == |Prefixes(tokens.Keys)|
  {
    forall p <- Prefixes(tokens.Keys) ensures p in labels {
      if p == [] {
        assert labels[0] == p;
      } else {
        var w, k :| w in tokens.Keys && 0 <= k <= |w| && w[..k] == p;
        var j: nat :| j < |labels| && labels[j] == w;
        PrefixLabelled(nodes, labels, j, k);
      }
    }
    LabelCount(nodes, labels, tokens.Keys);
  }

  function WordsOf(words: seq<Word>): set<Word> {
    set w | w in words
  }

  lemma NotYetDone(words: seq<Word>, k: nat)
    requires Ascending(words) && k < |words|
    ensures words[k] !in words[..k]
  {
    if i :| 0 <= i < k && words[i] == words[k] {
      WordOrder(words[i], words[k]);
    }
  }

  lemma FilledLabelled(nodes: seq<BuildNode>, labels: seq<Word>, tokens: map<Word, seq<nat>>, done: set<Word>)
    requires Filled(nodes, labels, tokens, done)
    ensures Labelled(nodes, labels)
  {
  }

  // ---------- Laying the trie out flat ----------

  // The first `i` nodes are laid out.
  ghost predicate FlatUpto(t: TokenTrie, nodes: seq<BuildNode>, i: nat) {
    && |t.nodes| == i <= |nodes|
    && (forall k: nat :: k < i ==> InBounds(t, k))
    && (forall k: nat :: k < i ==> FlatNode(t, nodes, k))
  }

  ghost predicate FlatNode(t: TokenTrie, nodes: seq<BuildNode>, k: nat)
    requires k < |t.nodes| && k < |nodes| && InBounds(t, k)
  {
    && (forall e :: e in EdgesOf(t, k) <==> e.byte in nodes[k].children && nodes[k].children[e.byte] == e.child)
    && (forall id :: id in TokensAt(t, k) <==> id in nodes[k].terminalIds)
  }

  // The edges of a node in ascending byte order.
  method ChildEdges(children: map<Byte, nat>) returns (edges: seq<TrieEdge>)
    ensures forall e :: e in edges <==> e.byte in children && children[e.byte] == e.child
    ensures forall i, j :: 0 <= i < j < |edges| ==> edges[i].byte < edges[j].byte
  {
    edges := [];
    for byte := 0 to 256
      invariant forall e :: e in edges <==> e.byte < byte && e.byte in children && children[e.byte] == e.child
      invariant forall i :: 0 <= i < |edges| ==> edges[i].byte < byte
      invariant forall i, j :: 0 <= i < j < |edges| ==> edges[i].byte < edges[j].byte
    {
      if byte in children {
        edges := edges + [TrieEdge(byte, children[byte])];
      }
    }
  }

  function AddNode(t: TokenTrie, edges: seq<TrieEdge>, ids: seq<nat>): TokenTrie {
    TokenTrie(t.nodes + [TrieNode(|t.edges|, |edges|, |t.terminalIds|, |ids|)], t.edges + edges, t.terminalIds + ids)
  }

  lemma AddNodeFlat(t: TokenTrie, nodes: seq<BuildNode>, i: nat, edges: seq<TrieEdge>, ids: seq<nat>)
    requires FlatUpto(t, nodes, i) && i < |nodes|
    requires forall e :: e in edges <==> e.byte in nodes[i].children && nodes[i].children[e.byte] == e.child
    requires forall id :: id in ids <==> id in nodes[i].terminalIds
    ensures FlatUpto(AddNode(t, edges, ids), nodes, i + 1)
  {
    var t' := AddNode(t, edges, ids);
    forall k: nat | k < i + 1 ensures InBounds(t', k) && FlatNode(t', nodes, k) {
      if k < i {
        assert InBounds(t, k) && FlatNode(t, nodes, k);
        assert EdgesOf(t', k) == EdgesOf(t, k) && TokensAt(t', k) == TokensAt(t, k);
      } else {
        assert EdgesOf(t', k) == edges && TokensAt(t', k) == ids;
      }
    }
  }

  method Flatten(nodes: seq<BuildNode>) returns (t: TokenTrie)
    ensures FlatUpto(t, nodes, |nodes|)
  {
    t := TokenTrie([], [], []);
    for i := 0 to |nodes|
      invariant FlatUpto(t, nodes, i)
    {
      var edges := ChildEdges(nodes[i].children);
      var ids := SortIds(nodes[i].terminalIds);
      AddNodeFlat(t, nodes, i, edges, ids);
      t := AddNode(t, edges, ids);
    }
  }

  lemma FlatShape(t: TokenTrie, nodes: seq<BuildNode>, labels: seq<Word>)
    requires FlatUpto(t, nodes, |nodes|) && Labelled(nodes, labels)
    ensures TrieShape(t)
  {
    forall i: nat, e | i < |t.nodes| && e in EdgesOf(t, i) ensures i < e.child < |t.nodes| {
      assert FlatNode(t, nodes, i);
      assert ChildLabelled(nodes, labels, i, e.byte);
    }
  }

  lemma {:induction false} LeadsToLabel(t: TokenTrie, nodes: seq<BuildNode>, labels: seq<Word>, i: nat, w: Word, j: nat)
    requires FlatUpto(t, nodes, |nodes|) && Labelled(nodes, labels) && TrieShape(t) && Leads(t, i, w, j)
    ensures j < |labels| && i < |labels| && labels[j] == labels[i] + w
    decreases |w|
  {
    if w != [] {
      var e :| e in EdgesOf(t, i) && e.byte == w[0] && Leads(t, e.child, w[1..], j);
      assert FlatNode(t, nodes, i);
      assert ChildLabelled(nodes, labels, i, e.byte);
      LeadsToLabel(t, nodes, labels, e.child, w[1..], j);
      assert w == [w[0]] + w[1..];
    }
  }

  lemma {:induction false} LeadsOneMore(t: TokenTrie, i: nat, w: Word, j: nat, e: TrieEdge)
    requires TrieShape(t) && Leads(t, i, w, j) && j < |t.nodes| && e in EdgesOf(t, j)
    ensures Leads(t, i, w + [e.byte], e.child)
    decreases |w|
  {
    var more := w + [e.byte];
    if w == [] {
      assert more[0] == e.byte && more[1..] == [];
      assert Leads(t, e.child, [], e.child);
    } else {
      var first :| first in EdgesOf(t, i) && first.byte == w[0] && Leads(t, first.child, w[1..], j);
      LeadsOneMore(t, first.child, w[1..], j, e);
      assert more[0] == w[0] && more[1..] == w[1..] + [e.byte];
    }
  }

  lemma {:induction false} LabelLeads(t: TokenTrie, nodes: seq<BuildNode>, labels: seq<Word>, j: nat)
    requires FlatUpto(t, nodes, |nodes|) && Labelled(nodes, labels) && TrieShape(t) && j < |nodes|
    ensures Leads(t, 0, labels[j], j)
    decreases j
  {
    if j > 0 {
      assert HasParent(nodes, labels, j);
      var i: nat :| i < j && IsParent(nodes, labels, i, j);
      LabelLeads(t, nodes, labels, i);
      var e := TrieEdge(labels[j][|labels[j]| - 1], j);
      assert FlatNode(t, nodes, i);
      LeadsOneMore(t, 0, labels[i], i, e);
    }
  }

  // The flat trie spells exactly the vocabulary.
  lemma FlatEnumerates(t: TokenTrie, nodes: seq<BuildNode>, labels: seq<Word>, tokens: map<Word, seq<nat>>)
    requires FlatUpto(t, nodes, |nodes|) && Filled(nodes, labels, tokens, tokens.Keys) && TrieShape(t)
    ensures Enumerates(t, tokens)
  {
    forall w: Word, id: nat ensures Spells(t, 0, w, id) <==> HasToken(tokens, w, id) {
      if Spells(t, 0, w, id) {
        SpelledIsToken(t, nodes, labels, tokens, w, id);
      }
      if HasToken(tokens, w, id) {
        TokenIsSpelled(t, nodes, labels, tokens, w, id);
      }
    }
  }

  lemma SpelledIsToken(t: TokenTrie, nodes: seq<BuildNode>, labels: seq<Word>, tokens: map<Word, seq<nat>>, w: Word,
      id: nat)
    requires FlatUpto(t, nodes, |nodes|) && Filled(nodes, labels, tokens, tokens.Keys) && TrieShape(t)
    requires Spells(t, 0, w, id)
    ensures HasToken(tokens, w, id)
  {
    var j: nat :| j < |t.nodes| && Leads(t, 0, w, j) && id in TokensAt(t, j);
    LeadsToLabel(t, nodes, labels, 0, w, j);
    assert [] + w == w;
    assert FlatNode(t, nodes, j);
    assert id in nodes[j].terminalIds;
  }

  lemma TokenIsSpelled(t: TokenTrie, nodes: seq<BuildNode>, labels: seq<Word>, tokens: map<Word, seq<nat>>, w: Word,
      id: nat)
    requires FlatUpto(t, nodes, |nodes|) && Filled(nodes, labels, tokens, tokens.Keys) && TrieShape(t)
    requires HasToken(tokens, w, id)
    ensures Spells(t, 0, w, id)
  {
    assert w in labels;
    var j :| 0 <= j < |labels| && labels[j] == w;
    LabelLeads(t, nodes, labels, j);
    assert id in nodes[j].terminalIds;
    assert FlatNode(t, nodes, j);
  }

  // ---------- The whole build ----------

  // Sizes and the widest id, in byte order of the tokens.
  method Measure(tokens: map<Word, seq<nat>>, words: seq<Word>, eos: nat, limits: CompileLimits)
    returns (maxId: nat, error: Option<VocabularyError>)
    requires Ascending(words) && forall w :: w in words <==> w in tokens
    ensures error.None? ==>
            [] !in tokens && Fitting(tokens, maxId + 1) && (maxId == eos || InVocabulary(tokens, maxId)) && eos <= maxId
    ensures error.None? ==>
            && (forall w <- tokens :: |w| <= limits.maxTokenBytes)
            && Sum(tokens.Keys, Length) <= limits.maxTotalTokenBytes
            && Sum(tokens.Keys, Spellings(tokens)) <= limits.maxTrieTerminalIds
    ensures error.Some? ==>
            || (error.value.EmptyTokenDisallowed? && [] in tokens)
            || (error.value.OverLimit? && Oversize(tokens, eos, limits, error.value.observed, error.value.limit))
  {
    hide Sum, Prefixes;
    maxId := eos;
    var total, aliases := 0, 0;
    ghost var done: set<Word> := {};
    NothingSummed(tokens);
    for k := 0 to |words|
      invariant eos <= maxId && (maxId == eos || InVocabulary(tokens, maxId))
      invariant forall j :: 0 <= j < k ==>
                  words[j] != [] && words[j] in tokens && forall id <- tokens[words[j]] :: id <= maxId
      invariant done == WordsOf(words[..k]) && done <= tokens.Keys
      invariant forall w <- done :: |w| <= limits.maxTokenBytes
      invariant total == Sum(done, Length) <= limits.maxTotalTokenBytes
      invariant aliases == Sum(done, Spellings(tokens)) <= limits.maxTrieTerminalIds
    {
      var word := words[k];
      assert word in tokens;
      if word == [] {
        return maxId, Some(EmptyTokenDisallowed);
      }
      if |word| > limits.maxTokenBytes {
        return maxId, Some(OverLimit(|word|, limits.maxTokenBytes));
      }
      NotYetDone(words, k);
      SumMore(done, word, Length);
      SumMore(done, word, Spellings(tokens));
      SumPart(done + {word}, tokens.Keys, Length);
      SumPart(done + {word}, tokens.Keys, Spellings(tokens));
      assert words[..k + 1] == words[..k] + [word];
      done := done + {word};
      total := total + |word|;
      if total > limits.maxTotalTokenBytes {
        return maxId, Some(OverLimit(total, limits.maxTotalTokenBytes));
      }
      aliases := aliases + |tokens[word]|;
      if aliases > limits.maxTrieTerminalIds {
        return maxId, Some(OverLimit(aliases, limits.maxTrieTerminalIds));
      }
      var widest := MaxId(tokens[word], maxId);
      assert widest != maxId ==> HasToken(tokens, word, widest);
      maxId := widest;
    }
    assert words[..|words|] == words;
    assert done == tokens.Keys;
    error := None;
  }

  lemma NothingSummed(tokens: map<Word, seq<nat>>)
    ensures Sum({}, Length) == 0 && Sum({}, Spellings(tokens)) == 0
  {
  }

  lemma WidthOver(tokens: map<Word, seq<nat>>, eos: nat, maxId: nat, limits: CompileLimits)
    requires Fitting(tokens, maxId + 1) && eos <= maxId && (maxId == eos || InVocabulary(tokens, maxId))
    ensures maxId + 1 > limits.maxVocabularySlots ==>
              Oversize(tokens, eos, limits, maxId + 1, limits.maxVocabularySlots)
    ensures maxId + 1 <= limits.maxVocabularySlots ==>
              eos < limits.maxVocabularySlots
              && forall id: nat :: InVocabulary(tokens, id) ==> id < limits.maxVocabularySlots
  {
    hide Sum, Prefixes;
    if maxId != eos {
      assert SlotUsed(tokens, maxId + 1);
    }
  }

  // The derived vocabulary is exact, and there is one exactly when no token is empty, no id has two byte strings and
  // the sizes are within their limits; a refusal names the cause.
  method Build(tokens: map<Word, seq<nat>>, eos: nat, limits: CompileLimits) returns (r: VocabularyResult)
    ensures r.Derived? ==> DerivedFrom(r.vocabulary, tokens, eos)
    ensures r.Derived? <==>
            [] !in tokens && (forall id: nat :: !Ambiguous(tokens, id)) && WithinSizes(tokens, eos, limits)
    ensures r.Refused? ==> match r.error
                           case EmptyTokenDisallowed => [] in tokens
                           case AmbiguousTokenId(id) => Ambiguous(tokens, id)
                           case OverLimit(observed, limit) => Oversize(tokens, eos, limits, observed, limit)
  {
    hide Sum, Prefixes, Fitting, Filled, ReverseUpto, Oversize, Ambiguous, Enumerates, ReverseExact, TrieShape,
      Labelled, FlatUpto, EdgeCount, Ascending, InVocabulary;
    if |tokens| > limits.maxTrieNodes {
      NodesOver(tokens, eos, limits);
      return Refused(OverLimit(|tokens|, limits.maxTrieNodes));
    }
    var words := SortWords(tokens.Keys);
    var maxId, error := Measure(tokens, words, eos, limits);
    if error.Some? {
      RefusedFor(tokens, eos, limits, error.value);
      return Refused(error.value);
    }
    var width := maxId + 1;
    WidthOver(tokens, eos, maxId, limits);
    if width > limits.maxVocabularySlots {
      RefusedFor(tokens, eos, limits, OverLimit(width, limits.maxVocabularySlots));
      return Refused(OverLimit(width, limits.maxVocabularySlots));
    }
    var nodes, reverse;
    ghost var labels;
    nodes, labels, reverse, error := Fill(tokens, words, width, limits);
    if error.Some? {
      FillOver(tokens, eos, limits, error.value);
      RefusedFor(tokens, eos, limits, error.value);
      return Refused(error.value);
    }
    var edges := EdgeCount(nodes);
    FilledLabelled(nodes, labels, tokens, tokens.Keys);
    EdgesAreNodes(nodes, labels);
    EdgesOver(tokens, eos, limits);
    if edges > limits.maxTrieEdges {
      RefusedFor(tokens, eos, limits, OverLimit(edges, limits.maxTrieEdges));
      return Refused(OverLimit(edges, limits.maxTrieEdges));
    }
    var trie := Flatten(nodes);
    FlatShape(trie, nodes, labels);
    FlatEnumerates(trie, nodes, labels, tokens);
    MappedBack(reverse, tokens);
    r := Derived(DerivedVocabulary(trie, reverse, eos, width, (width + 31) / 32));
    assert WithinSizes(tokens, eos, limits);
  }

  // Each cause rules a vocabulary out.
  lemma RefusedFor(tokens: map<Word, seq<nat>>, eos: nat, limits: CompileLimits, error: VocabularyError)
    requires match error
             case EmptyTokenDisallowed => [] in tokens
             case AmbiguousTokenId(id) => Ambiguous(tokens, id)
             case OverLimit(observed, limit) => Oversize(tokens, eos, limits, observed, limit)
    ensures !([] !in tokens && (forall id: nat :: !Ambiguous(tokens, id)) && WithinSizes(tokens, eos, limits))
  {
    hide Oversize, WithinSizes, Ambiguous;
    if error.OverLimit? {
      OversizeIsNotWithin(tokens, eos, limits, error.observed, error.limit);
    }
  }

  lemma NodesOver(tokens: map<Word, seq<nat>>, eos: nat, limits: CompileLimits)
    requires |tokens| > limits.maxTrieNodes
    ensures Oversize(tokens, eos, limits, |tokens|, limits.maxTrieNodes) && !WithinSizes(tokens, eos, limits)
  {
    hide Sum, Prefixes;
    WordsArePrefixes(tokens.Keys);
    assert |tokens.Keys| == |tokens|;
    OversizeIsNotWithin(tokens, eos, limits, |tokens|, limits.maxTrieNodes);
  }

  lemma FillOver(tokens: map<Word, seq<nat>>, eos: nat, limits: CompileLimits, error: VocabularyError)
    requires FillFails(tokens, limits, error)
    ensures error.OverLimit? ==> Oversize(tokens, eos, limits, error.observed, error.limit)
  {
    hide Sum, Prefixes;
  }

  lemma EdgesOver(tokens: map<Word, seq<nat>>, eos: nat, limits: CompileLimits)
    ensures |Prefixes(tokens.Keys)| - 1 > limits.maxTrieEdges ==>
              Oversize(tokens, eos, limits, |Prefixes(tokens.Keys)| - 1, limits.maxTrieEdges)
  {
    hide Sum, Prefixes;
  }

  function EdgeCount(nodes: seq<BuildNode>): nat {
    if nodes == [] then 0 else EdgeCount(nodes[..|nodes| - 1]) + |nodes[|nodes| - 1].children|
  }

  // ---------- One edge for every node but the root ----------

  ghost function KidsOf(node: BuildNode): set<nat> {
    Values(node.children, node.children.Keys)
  }

  ghost function Kids(nodes: seq<BuildNode>): set<nat> {
    if nodes == [] then {} else Kids(nodes[..|nodes| - 1]) + KidsOf(nodes[|nodes| - 1])
  }

  lemma {:induction false} DistinctValues(m: map<Byte, nat>, keys: set<Byte>)
    requires keys <= m.Keys && forall b <- m, c <- m :: m[b] == m[c] ==> b == c
    ensures |Values(m, keys)| == |keys|
    decreases |keys|
  {
    if keys != {} {
      var b :| b in keys;
      var rest := keys - {b};
      DistinctValues(m, rest);
      assert Values(m, keys) == Values(m, rest) + {m[b]};
      assert m[b] !in Values(m, rest);
    }
  }

  ghost function Values(m: map<Byte, nat>, keys: set<Byte>): set<nat>
    requires keys <= m.Keys
  {
    set b | b in keys :: m[b]
  }

  ghost predicate IsKid(nodes: seq<BuildNode>, labels: seq<Word>, i: nat, j: nat)
    requires |nodes| == |labels|
  {
    exists k: nat :: k < i <= |nodes| && j < |nodes| && IsParent(nodes, labels, k, j)
  }

  // The children of one node: each of them once, and none of an earlier node.
  lemma KidsHere(nodes: seq<BuildNode>, labels: seq<Word>, i: nat)
    requires Labelled(nodes, labels) && i < |nodes|
    ensures |KidsOf(nodes[i])| == |nodes[i].children|
    ensures forall j :: j in KidsOf(nodes[i]) ==> j < |nodes| && IsParent(nodes, labels, i, j)
    ensures forall j: nat :: IsKid(nodes, labels, i, j) ==> j !in KidsOf(nodes[i])
  {
    var m := nodes[i].children;
    forall b <- m, c <- m | m[b] == m[c] ensures b == c {
      assert ChildLabelled(nodes, labels, i, b) && ChildLabelled(nodes, labels, i, c);
      assert (labels[i] + [b])[|labels[i]|] == (labels[i] + [c])[|labels[i]|];
    }
    DistinctValues(m, m.Keys);
    assert |m.Keys| == |m|;
    forall j | j in KidsOf(nodes[i]) ensures j < |nodes| && IsParent(nodes, labels, i, j) {
      var b :| b in m && m[b] == j;
      assert ChildLabelled(nodes, labels, i, b);
    }
    forall j: nat | IsKid(nodes, labels, i, j) ensures j !in KidsOf(nodes[i]) {
      var k: nat :| k < i && IsParent(nodes, labels, k, j);
      if j in KidsOf(nodes[i]) {
        assert labels[j][..|labels[j]| - 1] == labels[k] == labels[i];
        LabelsDistinct(nodes, labels, k, i);
      }
    }
  }

  lemma {:induction false} KidsCount(nodes: seq<BuildNode>, labels: seq<Word>, i: nat)
    requires Labelled(nodes, labels) && i <= |nodes|
    ensures |Kids(nodes[..i])| == EdgeCount(nodes[..i])
    ensures |nodes| == |labels| && forall j: nat :: j in Kids(nodes[..i]) <==> IsKid(nodes, labels, i, j)
    decreases i
  {
    assert |nodes| == |labels|;
    hide Labelled, IsParent, KidsOf;
    if i > 0 {
      KidsCount(nodes, labels, i - 1);
      KidsHere(nodes, labels, i - 1);
      assert nodes[..i][..i - 1] == nodes[..i - 1];
      forall j: nat ensures j in Kids(nodes[..i]) <==> IsKid(nodes, labels, i, j) {
        if IsKid(nodes, labels, i, j) {
          var k: nat :| k < i && j < |nodes| && IsParent(nodes, labels, k, j);
          if k == i - 1 {
            KidIn(nodes, labels, k, j);
          } else {
            assert IsKid(nodes, labels, i - 1, j);
          }
        }
      }
    }
  }

  lemma KidIn(nodes: seq<BuildNode>, labels: seq<Word>, k: nat, j: nat)
    requires k < |nodes| == |labels| && j < |nodes| && IsParent(nodes, labels, k, j)
    ensures j in KidsOf(nodes[k])
  {
  }

  lemma EdgesAreNodes(nodes: seq<BuildNode>, labels: seq<Word>)
    requires Labelled(nodes, labels)
    ensures EdgeCount(nodes) == |nodes| - 1
  {
    var n := |nodes|;
    assert nodes[..n] == nodes;
    KidsCount(nodes, labels, n);
    forall j: nat ensures j in Kids(nodes) <==> 0 < j < n {
      if 0 < j < n {
        assert HasParent(nodes, labels, j);
      }
    }
    BelowCount(n);
    assert Kids(nodes) == Below(n);
  }

  // The numbers below `n` other than 0.
  ghost function Below(n: nat): (r: set<nat>)
    ensures forall j: nat :: j in r <==> 0 < j < n
  {
    if n <= 1 then {} else Below(n - 1) + {n - 1}
  }

  lemma {:induction false} BelowCount(n: nat)
    requires n > 0
    ensures |Below(n)| == n - 1
    decreases n
  {
    if n > 1 {
      BelowCount(n - 1);
    }
  }

  lemma MappedBack(reverse: seq<Option<Word>>, tokens: map<Word, seq<nat>>)
    requires ReverseUpto(reverse, tokens, tokens.Keys, [], []) && Fitting(tokens, |reverse|)
    ensures ReverseExact(reverse, tokens) && forall id: nat :: !Ambiguous(tokens, id)
  {
    forall id: nat ensures !Ambiguous(tokens, id) {
      if Ambiguous(tokens, id) {
        var u: Word, v: Word :| u != v && HasToken(tokens, u, id) && HasToken(tokens, v, id);
        OneWord(reverse, tokens, u, v, id);
      }
    }
  }

  lemma OneWord(reverse: seq<Option<Word>>, tokens: map<Word, seq<nat>>, u: Word, v: Word, id: nat)
    requires ReverseUpto(reverse, tokens, tokens.Keys, [], []) && Fitting(tokens, |reverse|)
    requires HasToken(tokens, u, id) && HasToken(tokens, v, id)
    ensures u == v
  {
    assert reverse[id] == Some(u);
  }
}
