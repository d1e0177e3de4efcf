/**
 Reversing an expression succeeds exactly when every atom has a reverse, and then can be undone.  The reversed
 expression denotes the reversed words of the original with its atoms read mirrored: by their reverse patterns,
 backwards.  Mirroring twice is reading as before, whatever the reverse patterns are.
 */
module Reversals {
  import opened Grammars
  import opened RegularExpressions

  // Every atom has a reverse.
  predicate Reversible(e: RegularExpression)
    decreases e
  {
    match e
    case Atom(_, reverse) => reverse.Some?
    case Concat(parts) => forall i :: 0 <= i < |parts| ==> Reversible(parts[i])
    case Union(branches) => forall i :: 0 <= i < |branches| ==> Reversible(branches[i])
    case Star(inner) => Reversible(inner)
    case _ => true
  }

  predicate AllReversible(es: seq<RegularExpression>) {
    forall i :: 0 <= i < |es| ==> Reversible(es[i])
  }

  lemma {:induction false} ReversedAllAt(es: seq<RegularExpression>, i: nat)
    requires ReversedAll(es).Some? && i < |es|
    ensures Reversed(es[i]) == Some(ReversedAll(es).value[i])
    decreases |es|
  {
    if i > 0 {
      ReversedAllAt(es[1..], i - 1);
    }
  }

  lemma {:induction false} ReversedAllSome(es: seq<RegularExpression>)
    requires forall i :: 0 <= i < |es| ==> Reversed(es[i]).Some?
    ensures ReversedAll(es).Some?
    decreases |es|
  {
    if es != [] {
      assert forall i :: 0 <= i < |es[1..]| ==> es[1..][i] == es[i + 1];
      ReversedAllSome(es[1..]);
    }
  }

  // Reversal succeeds exactly on reversible expressions.
  lemma {:induction false} ReversedIff(e: RegularExpression)
    ensures Reversed(e).Some? <==> Reversible(e)
    decreases e, 0
  {
    match e
    case Concat(parts) => ReversedAllIff(parts);
    case Union(branches) => ReversedAllIff(branches);
    case Star(inner) => ReversedIff(inner);
    case _ =>
  }

  lemma {:induction false} ReversedAllIff(es: seq<RegularExpression>)
    ensures ReversedAll(es).Some? <==> AllReversible(es)
    decreases es, 1
  {
    forall i | 0 <= i < |es| ensures Reversed(es[i]).Some? <==> Reversible(es[i]) {
      ReversedIff(es[i]);
    }
    if AllReversible(es) {
      ReversedAllSome(es);
    }
    if ReversedAll(es).Some? {
      forall i | 0 <= i < |es| ensures Reversible(es[i]) {
        ReversedAllAt(es, i);
      }
    }
  }

  // ---------- The constructors keep reversibility ----------

  predicate EachReversible(es: seq<RegularExpression>) {
    forall e <- es :: Reversible(e)
  }

  lemma EachIsAll(es: seq<RegularExpression>)
    ensures EachReversible(es) <==> AllReversible(es)
  {
    if EachReversible(es) {
      forall i | 0 <= i < |es| ensures Reversible(es[i]) {
        assert es[i] in es;
      }
    }
  }

  lemma {:induction false} FlattenPartsReversible(parts: seq<RegularExpression>)
    requires EachReversible(parts) && FlattenParts(parts).Some?
    ensures EachReversible(FlattenParts(parts).value)
    decreases |parts|
  {
    if parts != [] {
      assert parts[0] in parts && forall e <- parts[1..] :: e in parts;
      FlattenPartsReversible(parts[1..]);
      EachIsAll(Pieces(parts[0]));
    }
  }

  lemma ConcatOfReversible(parts: seq<RegularExpression>)
    requires forall e <- parts :: Reversible(e)
    ensures Reversible(ConcatOf(parts))
  {
    match FlattenParts(parts)
    case None =>
    case Some(flat) =>
      FlattenPartsReversible(parts);
      EachIsAll(flat);
  }

  lemma {:induction false} FlattenBranchesReversible(branches: seq<RegularExpression>)
    requires EachReversible(branches)
    ensures EachReversible(FlattenBranches(branches))
    decreases |branches|
  {
    if branches != [] {
      assert branches[0] in branches && forall e <- branches[1..] :: e in branches;
      FlattenBranchesReversible(branches[1..]);
      EachIsAll(Alternatives(branches[0]));
    }
  }

  lemma UnionOfReversible(branches: seq<RegularExpression>)
    requires forall e <- branches :: Reversible(e)
    ensures Reversible(UnionOf(branches))
  {
    FlattenBranchesReversible(branches);
    var unique := SortBranches(FlattenBranches(branches));
    assert EachReversible(unique);
    EachIsAll(unique);
  }

  lemma StarOfReversible(e: RegularExpression)
    requires Reversible(e)
    ensures Reversible(StarOf(e))
  {
  }

  lemma {:induction false} BackwardsIn<T>(s: seq<T>)
    ensures forall x :: x in Backwards(s) <==> x in s
    decreases |s|
  {
    if s != [] {
      BackwardsIn(s[1..]);
      assert forall x :: x in s <==> x == s[0] || x in s[1..];
    }
  }

  // What comes out of a reversal can be reversed back.
  lemma {:induction false} ReversedReversible(e: RegularExpression)
    requires Reversed(e).Some?
    ensures Reversible(Reversed(e).value)
    decreases e, 0
  {
    match e
    case Concat(parts) =>
      ReversedAllReversible(parts);
      BackwardsIn(ReversedAll(parts).value);
      ConcatOfReversible(Backwards(ReversedAll(parts).value));
    case Union(branches) =>
      ReversedAllReversible(branches);
      UnionOfReversible(ReversedAll(branches).value);
    case Star(inner) =>
      ReversedReversible(inner);
      StarOfReversible(Reversed(inner).value);
    case _ =>
  }

  lemma {:induction false} ReversedAllReversible(es: seq<RegularExpression>)
    requires ReversedAll(es).Some?
    ensures EachReversible(ReversedAll(es).value)
    decreases es, 1
  {
    var reversed := ReversedAll(es).value;
    forall i | 0 <= i < |es| ensures Reversible(reversed[i]) {
      ReversedAllAt(es, i);
      ReversedReversible(es[i]);
    }
  }

  // ---------- Mirrored atoms ----------

  // An atom read by its reverse pattern, backwards.
  ghost function Mirrored(reading: Reading): Reading {
    (forward: Pattern, reverse: Option<Pattern>) =>
      if reverse.None? then iset{} else iset w: Word | Rev(w) in reading(reverse.value, Some(forward))
  }

  // Two readings that agree on atoms with a reverse.
  ghost predicate Agree(first: Reading, second: Reading) {
    forall forward, reverse :: first(forward, Some(reverse)) == second(forward, Some(reverse))
  }

  lemma MirroredTwice(reading: Reading)
    ensures Agree(Mirrored(Mirrored(reading)), reading)
  {
    forall forward, reverse, w: Word
      ensures w in Mirrored(Mirrored(reading))(forward, Some(reverse)) <==> w in reading(forward, Some(reverse))
    {
      RevRev(w);
    }
  }

  lemma {:induction false} AgreeDenotes(first: Reading, second: Reading, e: RegularExpression, w: Word)
    requires Agree(first, second) && Reversible(e) && Denotes(first, e, w)
    ensures Denotes(second, e, w)
    decreases e, 0
  {
    match e
    case Concat(parts) => AgreeDenotesAll(first, second, parts, w);
    case Union(branches) =>
      var b :| b in branches && Denotes(first, b, w);
      var i :| 0 <= i < |branches| && branches[i] == b;
      AgreeDenotes(first, second, b, w);
    case Star(inner) =>
      var words: seq<Word> :| Flatten(words) == w && forall x <- words :: Denotes(first, inner, x);
      forall x <- words ensures Denotes(second, inner, x) {
        AgreeDenotes(first, second, inner, x);
      }
    case _ =>
  }

  lemma {:induction false} AgreeDenotesAll(first: Reading, second: Reading, parts: seq<RegularExpression>, w: Word)
    requires Agree(first, second) && AllReversible(parts) && DenotesAll(first, parts, w)
    ensures DenotesAll(second, parts, w)
    decreases parts, 1
  {
    if parts != [] {
      var k: nat :| k <= |w| && Denotes(first, parts[0], w[..k]) && DenotesAll(first, parts[1..], w[k..]);
      AgreeDenotes(first, second, parts[0], w[..k]);
      AgreeDenotesAll(first, second, parts[1..], w[k..]);
    }
  }

  // Reading mirrored twice is reading as written.
  lemma MirroredTwiceDenotes(reading: Reading, e: RegularExpression, w: Word)
    requires Reversible(e)
    ensures Denotes(Mirrored(Mirrored(reading)), e, w) <==> Denotes(reading, e, w)
  {
    hide Denotes, Agree, Mirrored, Reversible;
    var twice := Mirrored(Mirrored(reading));
    MirroredTwice(reading);
    AgreeBack(twice, reading);
    if Denotes(twice, e, w) {
      AgreeDenotes(twice, reading, e, w);
    }
    if Denotes(reading, e, w) {
      AgreeDenotes(reading, twice, e, w);
    }
  }

  lemma AgreeBack(first: Reading, second: Reading)
    requires Agree(first, second)
    ensures Agree(second, first)
  {
  }

  // ---------- Reversal reverses the language ----------

  lemma {:induction false} ReversedDenotes(reading: Reading, e: RegularExpression, w: Word)
    requires Reversed(e).Some?
    ensures Denotes(reading, Reversed(e).value, w) <==> Denotes(Mirrored(reading), e, Rev(w))
    decreases e, 0
  {
    RevRev(w);
    match e
    case Empty =>
    case Epsilon =>
    case Atom(_, _) =>
    case Concat(parts) =>
      ConcatOfDenotes(reading, Backwards(ReversedAll(parts).value), w);
      ReversedAllDenotes(reading, parts, w);
    case Union(branches) =>
      var reversed := ReversedAll(branches).value;
      UnionOfDenotes(reading, reversed, w);
      forall i | 0 <= i < |branches|
        ensures Denotes(reading, reversed[i], w) <==> Denotes(Mirrored(reading), branches[i], Rev(w))
      {
        ReversedAllAt(branches, i);
        ReversedDenotes(reading, branches[i], w);
      }
      assert forall b :: b in reversed <==> exists i :: 0 <= i < |reversed| && reversed[i] == b;
    case Star(inner) =>
      StarOfDenotes(reading, Reversed(inner).value, w);
      StarReversed(reading, e, w);
  }

  // The pieces of a repetition, each reversed and in the opposite order.
  function RevEach(words: seq<Word>): (r: seq<Word>)
    ensures |r| == |words|
  {
    if words == [] then [] else RevEach(words[1..]) + [Rev(words[0])]
  }

  lemma {:induction false} RevEachFlatten(words: seq<Word>)
    ensures Flatten(RevEach(words)) == Rev(Flatten(words))
    ensures forall x :: x in RevEach(words) <==> exists y :: y in words && x == Rev(y)
    decreases |words|
  {
    if words != [] {
      RevEachFlatten(words[1..]);
      FlattenAppend(RevEach(words[1..]), [Rev(words[0])]);
      RevAppend(words[0], Flatten(words[1..]));
      assert [Rev(words[0])][1..] == [];
      assert Flatten([Rev(words[0])]) == Rev(words[0]);
      assert forall y :: y in words <==> y == words[0] || y in words[1..];
    }
  }

  lemma {:induction false} StarReversed(reading: Reading, e: RegularExpression, w: Word)
    requires e.Star? && Reversed(e).Some?
    ensures DenotesStar(reading, Reversed(e.inner).value, w) <==> DenotesStar(Mirrored(reading), e.inner, Rev(w))
    decreases e.inner, 1
  {
    var reversed := Reversed(e.inner).value;
    forall x: Word ensures Denotes(reading, reversed, x) <==> Denotes(Mirrored(reading), e.inner, Rev(x)) {
      ReversedDenotes(reading, e.inner, x);
    }
    if words: seq<Word> :| Flatten(words) == w && forall x <- words :: Denotes(reading, reversed, x) {
      RevEachFlatten(words);
    }
    if words: seq<Word> :| Flatten(words) == Rev(w) && forall x <- words :: Denotes(Mirrored(reading), e.inner, x) {
      RevEachFlatten(words);
      RevRev(w);
      forall x <- RevEach(words) ensures Denotes(reading, reversed, x) {
        var y :| y in words && x == Rev(y);
        RevRev(y);
      }
    }
  }

  lemma {:induction false} ReversedAllDenotes(reading: Reading, es: seq<RegularExpression>, w: Word)
    requires ReversedAll(es).Some?
    ensures DenotesAll(reading, Backwards(ReversedAll(es).value), w) <==> DenotesAll(Mirrored(reading), es, Rev(w))
    decreases es, 1
  {
    if es == [] {
      RevRev(w);
    } else {
      if DenotesAll(reading, Backwards(ReversedAll(es).value), w) {
        BackwardsThere(reading, es, w);
      }
      if DenotesAll(Mirrored(reading), es, Rev(w)) {
        BackwardsBack(reading, es, w);
      }
    }
  }

  lemma ReversedAllParts(es: seq<RegularExpression>)
    requires es != [] && ReversedAll(es).Some?
    ensures Reversed(es[0]).Some? && ReversedAll(es[1..]).Some?
    ensures [es[0]] + es[1..] == es
    ensures Backwards(ReversedAll(es).value) == Backwards(ReversedAll(es[1..]).value) + [Reversed(es[0]).value]
  {
    hide Reversed;
    var all := ReversedAll(es).value;
    assert all[1..] == ReversedAll(es[1..]).value && all[0] == Reversed(es[0]).value;
  }

  lemma {:induction false} BackwardsThere(reading: Reading, es: seq<RegularExpression>, w: Word)
    requires es != [] && ReversedAll(es).Some?
    requires DenotesAll(reading, Backwards(ReversedAll(es).value), w)
    ensures DenotesAll(Mirrored(reading), es, Rev(w))
    decreases es, 0
  {
    hide Denotes, DenotesAll, Reversed, ReversedAll, Mirrored, Backwards;
    ReversedAllParts(es);
    var first, front := Reversed(es[0]).value, Backwards(ReversedAll(es[1..]).value);
    var k := DenotesSplit(reading, front, [first], w);
    DenotesOne(reading, first, w[k..]);
    ReversedAllDenotes(reading, es[1..], w[..k]);
    ReversedDenotes(reading, es[0], w[k..]);
    RevSplit(w, k);
    JoinFirst(Mirrored(reading), es[0], es[1..], Rev(w), |w| - k);
  }

  lemma {:induction false} BackwardsBack(reading: Reading, es: seq<RegularExpression>, w: Word)
    requires es != [] && ReversedAll(es).Some?
    requires DenotesAll(Mirrored(reading), es, Rev(w))
    ensures DenotesAll(reading, Backwards(ReversedAll(es).value), w)
    decreases es, 0
  {
    hide Denotes, DenotesAll, Reversed, ReversedAll, Mirrored, Backwards, Rev;
    ReversedAllParts(es);
    var j := SplitFirst(Mirrored(reading), es[0], es[1..], Rev(w));
    RevSplit(w, 0);
    var k := |w| - j;
    RevSplit(w, k);
    ReversedDenotes(reading, es[0], w[k..]);
    ReversedAllDenotes(reading, es[1..], w[..k]);
    JoinLast(reading, Backwards(ReversedAll(es[1..]).value), Reversed(es[0]).value, w, k);
  }

  lemma JoinLast(reading: Reading, front: seq<RegularExpression>, last: RegularExpression, w: Word, k: nat)
    requires k <= |w| && DenotesAll(reading, front, w[..k]) && Denotes(reading, last, w[k..])
    ensures DenotesAll(reading, front + [last], w)
  {
    hide Denotes, DenotesAll;
    DenotesOne(reading, last, w[k..]);
    DenotesAppend(reading, front, [last], w[..k], w[k..]);
    assert w[..k] + w[k..] == w;
  }

  lemma RevSplit(w: Word, k: nat)
    requires k <= |w|
    ensures |Rev(w)| == |w| && Rev(w)[..|w| - k] == Rev(w[k..]) && Rev(w)[|w| - k..] == Rev(w[..k])
  {
    hide Rev;
    var u, v := w[..k], w[k..];
    assert u + v == w;
    RevAppend(u, v);
    RevRev(u);
    RevRev(v);
  }
}
