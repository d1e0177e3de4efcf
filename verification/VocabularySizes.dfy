/**
 How large a vocabulary is: its bytes, its ids, its width and the nodes of its trie, which are the prefixes of its
 words.
 */
module VocabularySizes {
  import opened Grammars
  import opened CompileErrors
  import opened Tries

  ghost function Sum(words: set<Word>, size: Word -> nat): nat
    decreases |words|
  {
    if words == {} then 0 else var w :| w in words; size(w) + Sum(words - {w}, size)
  }

  // One word more: its size more.
  lemma {:induction false} SumMore(words: set<Word>, w: Word, size: Word -> nat)
    requires w !in words
    ensures Sum(words + {w}, size) == Sum(words, size) + size(w)
    decreases |words|
  {
    var more := words + {w};
    var v :| v in more && Sum(more, size) == size(v) + Sum(more - {v}, size);
    if v == w {
      assert more - {w} == words;
    } else {
      var rest := words - {v};
      assert more - {v} == rest + {w} && words == rest + {v};
      SumMore(rest, w, size);
      SumMore(rest, v, size);
    }
  }

  lemma {:induction false} SumPart(words: set<Word>, all: set<Word>, size: Word -> nat)
    requires words <= all
    ensures Sum(words, size) <= Sum(all, size)
    decreases |all - words|
  {
    if words != all {
      assert all - words != {} by {
        var w :| w in all && w !in words;
        assert w in all - words;
      }
      var w :| w in all - words;
      SumMore(words, w, size);
      assert all - (words + {w}) == all - words - {w};
      SumPart(words + {w}, all, size);
    }
  }

  function Length(w: Word): nat {
    |w|
  }

  function Spellings(tokens: map<Word, seq<nat>>): Word -> nat {
    w => if w in tokens then |tokens[w]| else 0
  }

  // What the trie has a node for: the empty word and every prefix of a word.
  ghost function Prefixes(words: set<Word>): set<Word> {
    {[]} + set w, k | w in words && 0 <= k <= |w| :: w[..k]
  }

  lemma PrefixIn(words: set<Word>, w: Word, k: nat)
    requires w in words && k <= |w|
    ensures w[..k] in Prefixes(words)
  {
  }

  lemma WordsArePrefixes(words: set<Word>)
    ensures |words| <= |Prefixes(words)|
  {
    forall w | w in words ensures w in Prefixes(words) {
      assert w[..|w|] == w;
    }
    SmallerSet(words, Prefixes(words));
  }

  lemma {:induction false} SmallerSet(a: set<Word>, b: set<Word>)
    requires a <= b
    ensures |a| <= |b|
    decreases |a|
  {
    if a != {} {
      var w :| w in a;
      SmallerSet(a - {w}, b - {w});
    }
  }

  ghost predicate WithinSizes(tokens: map<Word, seq<nat>>, eos: nat, limits: CompileLimits) {
    && (forall w <- tokens :: |w| <= limits.maxTokenBytes)
    && Sum(tokens.Keys, Length) <= limits.maxTotalTokenBytes
    && Sum(tokens.Keys, Spellings(tokens)) <= limits.maxTrieTerminalIds
    && eos < limits.maxVocabularySlots
    && (forall id: nat :: InVocabulary(tokens, id) ==> id < limits.maxVocabularySlots)
    && (tokens != map[] ==> |Prefixes(tokens.Keys)| <= limits.maxTrieNodes)
    && |Prefixes(tokens.Keys)| <= limits.maxTrieEdges + 1
  }

  // The vocabulary reaches the size reported, which is over its limit.
  ghost predicate Oversize(tokens: map<Word, seq<nat>>, eos: nat, limits: CompileLimits, observed: nat, limit: nat) {
    && observed > limit
    && (|| (limit == limits.maxTokenBytes && exists w <- tokens :: |w| == observed)
        || (limit == limits.maxTotalTokenBytes && observed <= Sum(tokens.Keys, Length))
        || (limit == limits.maxTrieTerminalIds && observed <= Sum(tokens.Keys, Spellings(tokens)))
        || (limit == limits.maxVocabularySlots && (observed == eos + 1 || SlotUsed(tokens, observed)))
        || (limit == limits.maxTrieNodes && tokens != map[] && observed <= |Prefixes(tokens.Keys)|)
        || (limit == limits.maxTrieEdges && observed < |Prefixes(tokens.Keys)|))
  }

  ghost predicate SlotUsed(tokens: map<Word, seq<nat>>, n: nat) {
    n > 0 && InVocabulary(tokens, n - 1)
  }

  lemma OversizeIsNotWithin(tokens: map<Word, seq<nat>>, eos: nat, limits: CompileLimits, observed: nat, limit: nat)
    requires Oversize(tokens, eos, limits, observed, limit)
    ensures !WithinSizes(tokens, eos, limits)
  {
    hide Sum, Prefixes, InVocabulary;
  }
}
