/**
 Kleene elimination over a matrix of expressions: after eliminating the states below `k`, entry (s, t)
 denotes exactly the words of the walks from s to t whose inner states are all below `k`.
 */
module Kleene {
  import opened Grammars
  import opened RegularExpressions
  import opened Reversals

  type Matrix = seq<seq<RegularExpression>>

  predicate Square(m: Matrix, n: nat) {
    |m| == n && forall i :: 0 <= i < n ==> |m[i]| == n
  }

  datatype Step = Step(target: nat, word: Word)

  // The steps lead from `s` to `t` over edges of `m`, through inner states below `k`.
  ghost predicate WalkFor(reading: Reading, m: Matrix, k: nat, s: nat, steps: seq<Step>, t: nat)
    requires Square(m, |m|)
    decreases |steps|
  {
    && s < |m| && steps != [] && steps[0].target < |m|
    && Denotes(reading, m[s][steps[0].target], steps[0].word)
    && (if |steps| == 1 then steps[0].target == t
        else steps[0].target < k && WalkFor(reading, m, k, steps[0].target, steps[1..], t))
  }

  function WalkWord(steps: seq<Step>): Word {
    if steps == [] then [] else steps[0].word + WalkWord(steps[1..])
  }

  ghost predicate Walks(reading: Reading, m: Matrix, k: nat, s: nat, t: nat, w: Word)
    requires Square(m, |m|)
  {
    exists steps :: WalkFor(reading, m, k, s, steps, t) && WalkWord(steps) == w
  }

  // ---------- Walks ----------

  lemma OneStep(reading: Reading, m: Matrix, k: nat, s: nat, t: nat, w: Word)
    requires Square(m, |m|) && s < |m| && t < |m| && Denotes(reading, m[s][t], w)
    ensures Walks(reading, m, k, s, t, w)
  {
    var steps := [Step(t, w)];
    assert steps[1..] == [] && w + [] == w;
    assert WalkFor(reading, m, k, s, steps, t) && WalkWord(steps) == w;
  }

  lemma {:induction false} WalkMore(reading: Reading, m: Matrix, k: nat, k': nat, s: nat, steps: seq<Step>, t: nat)
    requires Square(m, |m|) && WalkFor(reading, m, k, s, steps, t) && k <= k'
    ensures WalkFor(reading, m, k', s, steps, t)
    decreases |steps|
  {
    if |steps| > 1 {
      WalkMore(reading, m, k, k', steps[0].target, steps[1..], t);
    }
  }

  lemma {:induction false} WalkJoin(reading: Reading, m: Matrix, k: nat, s: nat, a: seq<Step>, p: nat, b: seq<Step>,
      t: nat)
    requires Square(m, |m|) && WalkFor(reading, m, k, s, a, p) && WalkFor(reading, m, k, p, b, t) && p < k
    ensures WalkFor(reading, m, k, s, a + b, t) && WalkWord(a + b) == WalkWord(a) + WalkWord(b)
    decreases |a|
  {
    hide Denotes;
    var all := a + b;
    assert all[0] == a[0] && all[1..] == a[1..] + b;
    if |a| == 1 {
      assert a[1..] == [] && all[1..] == b;
    } else {
      WalkJoin(reading, m, k, a[0].target, a[1..], p, b, t);
    }
  }

  lemma WalksJoin(reading: Reading, m: Matrix, k: nat, s: nat, p: nat, t: nat, u: Word, v: Word)
    requires Square(m, |m|) && p < k && Walks(reading, m, k, s, p, u) && Walks(reading, m, k, p, t, v)
    ensures Walks(reading, m, k, s, t, u + v)
  {
    var a: seq<Step> :| WalkFor(reading, m, k, s, a, p) && WalkWord(a) == u;
    var b: seq<Step> :| WalkFor(reading, m, k, p, b, t) && WalkWord(b) == v;
    WalkJoin(reading, m, k, s, a, p, b, t);
  }

  lemma WalksMore(reading: Reading, m: Matrix, k: nat, k': nat, s: nat, t: nat, w: Word)
    requires Square(m, |m|) && Walks(reading, m, k, s, t, w) && k <= k'
    ensures Walks(reading, m, k', s, t, w)
  {
    var a: seq<Step> :| WalkFor(reading, m, k, s, a, t) && WalkWord(a) == w;
    WalkMore(reading, m, k, k', s, a, t);
  }

  // Looping at `p` before going on is a walk through `p`.
  lemma {:induction false} WalksLoop(reading: Reading, m: Matrix, p: nat, t: nat, loops: seq<Word>, x: Word)
    requires Square(m, |m|) && (forall v <- loops :: Walks(reading, m, p, p, p, v)) && Walks(reading, m, p + 1, p, t, x)
    ensures Walks(reading, m, p + 1, p, t, Flatten(loops) + x)
    decreases |loops|
  {
    hide Walks;
    if loops == [] {
      assert Flatten(loops) + x == x;
    } else {
      assert loops[0] in loops && forall v <- loops[1..] :: v in loops;
      WalksLoop(reading, m, p, t, loops[1..], x);
      WalksMore(reading, m, p, p + 1, p, p, loops[0]);
      WalksJoin(reading, m, p + 1, p, p, t, loops[0], Flatten(loops[1..]) + x);
      assert loops[0] + (Flatten(loops[1..]) + x) == Flatten(loops) + x;
    }
  }

  // A walk whose inner states are below p + 1, cut at its visits to p.
  ghost predicate Cut(reading: Reading, m: Matrix, p: nat, s: nat, t: nat, u: Word, loops: seq<Word>, x: Word)
    requires Square(m, |m|)
  {
    && Walks(reading, m, p, s, p, u)
    && (forall v <- loops :: Walks(reading, m, p, p, p, v))
    && Walks(reading, m, p, p, t, x)
  }

  ghost predicate CutWord(reading: Reading, m: Matrix, p: nat, s: nat, t: nat, w: Word)
    requires Square(m, |m|)
  {
    exists u: Word, loops: seq<Word>, x: Word :: Cut(reading, m, p, s, t, u, loops, x) && w == u + Flatten(loops) + x
  }

  lemma {:induction false} CutWalk(reading: Reading, m: Matrix, p: nat, s: nat, steps: seq<Step>, t: nat)
    requires Square(m, |m|) && p < |m| && WalkFor(reading, m, p + 1, s, steps, t)
    ensures Walks(reading, m, p, s, t, WalkWord(steps)) || CutWord(reading, m, p, s, t, WalkWord(steps))
    decreases |steps|
  {
    hide Denotes, Walks, CutWord;
    var q, first := steps[0].target, steps[0].word;
    OneStep(reading, m, p, s, q, first);
    if |steps| == 1 {
      assert WalkWord(steps) == first by { assert steps[1..] == [] && first + [] == first; }
    } else {
      var rest := WalkWord(steps[1..]);
      CutWalk(reading, m, p, q, steps[1..], t);
      if Walks(reading, m, p, q, t, rest) {
        if q < p {
          WalksJoin(reading, m, p, s, q, t, first, rest);
        } else {
          CutHere(reading, m, p, s, t, first, rest);
        }
      } else {
        CutLater(reading, m, p, s, q, t, first, rest);
      }
    }
  }

  lemma CutHere(reading: Reading, m: Matrix, p: nat, s: nat, t: nat, first: Word, rest: Word)
    requires Square(m, |m|) && Walks(reading, m, p, s, p, first) && Walks(reading, m, p, p, t, rest)
    ensures CutWord(reading, m, p, s, t, first + rest)
  {
    hide Walks;
    assert Cut(reading, m, p, s, t, first, [], rest);
    assert first + Flatten([]) + rest == first + rest;
  }

  lemma CutLater(reading: Reading, m: Matrix, p: nat, s: nat, q: nat, t: nat, first: Word, rest: Word)
    requires Square(m, |m|) && q <= p && Walks(reading, m, p, s, q, first) && CutWord(reading, m, p, q, t, rest)
    ensures CutWord(reading, m, p, s, t, first + rest)
  {
    hide Walks;
    var u: Word, loops: seq<Word>, x: Word :| Cut(reading, m, p, q, t, u, loops, x) && rest == u + Flatten(loops) + x;
    if q < p {
      WalksJoin(reading, m, p, s, q, p, first, u);
      assert Cut(reading, m, p, s, t, first + u, loops, x);
      assert (first + u) + Flatten(loops) + x == first + rest;
    } else {
      var more := [u] + loops;
      assert more[0] == u && more[1..] == loops;
      assert Cut(reading, m, p, s, t, first, more, x);
      assert first + Flatten(more) + x == first + rest;
    }
  }

  // ---------- One pivot ----------

  // From `s` to the pivot, round it, and on to `t`.
  ghost predicate Through(reading: Reading, m: Matrix, s: nat, p: nat, t: nat, w: Word)
    requires Square(m, |m|) && s < |m| && p < |m| && t < |m|
  {
    exists u: Word, v: Word, x: Word :: ThroughParts(reading, m, s, p, t, u, v, x) && w == u + v + x
  }

  ghost predicate ThroughParts(reading: Reading, m: Matrix, s: nat, p: nat, t: nat, u: Word, v: Word, x: Word)
    requires Square(m, |m|) && s < |m| && p < |m| && t < |m|
  {
    Denotes(reading, m[s][p], u) && DenotesStar(reading, m[p][p], v) && Denotes(reading, m[p][t], x)
  }

  ghost predicate EntryEliminated(reading: Reading, m: Matrix, p: nat, s: nat, t: nat, e: RegularExpression)
    requires Square(m, |m|) && s < |m| && p < |m| && t < |m|
  {
    forall w: Word :: Denotes(reading, e, w) <==> Denotes(reading, m[s][t], w) || Through(reading, m, s, p, t, w)
  }

  ghost predicate Eliminated(reading: Reading, m: Matrix, p: nat, m': Matrix)
    requires Square(m, |m|) && Square(m', |m|) && p < |m|
  {
    forall s: nat, t: nat :: s < |m| && t < |m| ==> EntryEliminated(reading, m, p, s, t, m'[s][t])
  }

  // Entry (s, t) denotes the walks through inner states below `k`.
  ghost predicate SolvedUpto(reading: Reading, m0: Matrix, m: Matrix, k: nat)
    requires Square(m0, |m0|) && Square(m, |m0|)
  {
    forall s: nat, t: nat :: s < |m0| && t < |m0| ==> EntrySolved(reading, m0, m[s][t], k, s, t)
  }

  ghost predicate EntrySolved(reading: Reading, m0: Matrix, e: RegularExpression, k: nat, s: nat, t: nat)
    requires Square(m0, |m0|)
  {
    forall w: Word :: Denotes(reading, e, w) <==> Walks(reading, m0, k, s, t, w)
  }

  lemma SolvedAtStart(reading: Reading, m: Matrix)
    requires Square(m, |m|)
    ensures SolvedUpto(reading, m, m, 0)
  {
    forall s: nat, t: nat, w: Word | s < |m| && t < |m|
      ensures Denotes(reading, m[s][t], w) <==> Walks(reading, m, 0, s, t, w)
    {
      if Denotes(reading, m[s][t], w) {
        OneStep(reading, m, 0, s, t, w);
      }
      if Walks(reading, m, 0, s, t, w) {
        var steps: seq<Step> :| WalkFor(reading, m, 0, s, steps, t) && WalkWord(steps) == w;
        assert WalkWord(steps) == steps[0].word by { assert steps[1..] == [] && steps[0].word + [] == steps[0].word; }
      }
    }
  }

  lemma StarWalks(reading: Reading, m0: Matrix, m: Matrix, p: nat, v: Word) returns (loops: seq<Word>)
    requires Square(m0, |m0|) && Square(m, |m0|) && p < |m0| && SolvedUpto(reading, m0, m, p)
    requires DenotesStar(reading, m[p][p], v)
    ensures Flatten(loops) == v && forall x <- loops :: Walks(reading, m0, p, p, p, x)
  {
    hide Denotes, Walks;
    assert EntrySolved(reading, m0, m[p][p], p, p, p);
    loops :| Flatten(loops) == v && forall x <- loops :: Denotes(reading, m[p][p], x);
  }

  lemma ThroughWalks(reading: Reading, m0: Matrix, m: Matrix, p: nat, s: nat, t: nat, w: Word)
    requires Square(m0, |m0|) && Square(m, |m0|) && p < |m0| && s < |m0| && t < |m0| && SolvedUpto(reading, m0, m, p)
    requires Through(reading, m, s, p, t, w)
    ensures Walks(reading, m0, p + 1, s, t, w)
  {
    hide Denotes, Walks, DenotesStar;
    var u: Word, v: Word, x: Word :| ThroughParts(reading, m, s, p, t, u, v, x) && w == u + v + x;
    assert EntrySolved(reading, m0, m[s][p], p, s, p) && EntrySolved(reading, m0, m[p][t], p, p, t);
    var loops := StarWalks(reading, m0, m, p, v);
    WalksMore(reading, m0, p, p + 1, p, t, x);
    WalksLoop(reading, m0, p, t, loops, x);
    WalksMore(reading, m0, p, p + 1, s, p, u);
    WalksJoin(reading, m0, p + 1, s, p, t, u, v + x);
    assert u + (v + x) == w;
  }

  lemma CutThrough(reading: Reading, m0: Matrix, m: Matrix, p: nat, s: nat, t: nat, w: Word)
    requires Square(m0, |m0|) && Square(m, |m0|) && p < |m0| && s < |m0| && t < |m0| && SolvedUpto(reading, m0, m, p)
    requires CutWord(reading, m0, p, s, t, w)
    ensures Through(reading, m, s, p, t, w)
  {
    hide Denotes, Walks;
    var u: Word, loops: seq<Word>, x: Word :| Cut(reading, m0, p, s, t, u, loops, x) && w == u + Flatten(loops) + x;
    assert EntrySolved(reading, m0, m[s][p], p, s, p) && EntrySolved(reading, m0, m[p][t], p, p, t);
    assert EntrySolved(reading, m0, m[p][p], p, p, p);
    assert DenotesStar(reading, m[p][p], Flatten(loops));
    assert ThroughParts(reading, m, s, p, t, u, Flatten(loops), x);
  }

  // Eliminating the next pivot solves one state more.
  lemma SolvedStep(reading: Reading, m0: Matrix, m: Matrix, p: nat, m': Matrix)
    requires Square(m0, |m0|) && Square(m, |m0|) && Square(m', |m0|) && p < |m0|
    requires SolvedUpto(reading, m0, m, p) && Eliminated(reading, m, p, m')
    ensures SolvedUpto(reading, m0, m', p + 1)
  {
    hide Denotes, Walks, Through, CutWord;
    forall s: nat, t: nat, w: Word | s < |m0| && t < |m0|
      ensures Denotes(reading, m'[s][t], w) <==> Walks(reading, m0, p + 1, s, t, w)
    {
      SolvedEntryStep(reading, m0, m, p, m', s, t, w);
    }
  }

  lemma SolvedEntryStep(reading: Reading, m0: Matrix, m: Matrix, p: nat, m': Matrix, s: nat, t: nat, w: Word)
    requires Square(m0, |m0|) && Square(m, |m0|) && Square(m', |m0|) && p < |m0| && s < |m0| && t < |m0|
    requires SolvedUpto(reading, m0, m, p) && Eliminated(reading, m, p, m')
    ensures Denotes(reading, m'[s][t], w) <==> Walks(reading, m0, p + 1, s, t, w)
  {
    hide Denotes, Through, CutWord;
    assert EntryEliminated(reading, m, p, s, t, m'[s][t]);
    assert EntrySolved(reading, m0, m[s][t], p, s, t);
    if Denotes(reading, m'[s][t], w) {
      if Denotes(reading, m[s][t], w) {
        WalksMore(reading, m0, p, p + 1, s, t, w);
      } else {
        ThroughWalks(reading, m0, m, p, s, t, w);
      }
    }
    if Walks(reading, m0, p + 1, s, t, w) {
      var steps: seq<Step> :| WalkFor(reading, m0, p + 1, s, steps, t) && WalkWord(steps) == w;
      CutWalk(reading, m0, p, s, steps, t);
      if CutWord(reading, m0, p, s, t, w) {
        CutThrough(reading, m0, m, p, s, t, w);
      }
    }
  }

  // ---------- The elimination loop ----------

  function NewEntry(m: Matrix, p: nat, s: nat, t: nat): RegularExpression
    requires Square(m, |m|) && p < |m| && s < |m| && t < |m|
  {
    if m[s][p] == Empty || m[p][t] == Empty then m[s][t]
    else UnionOf([m[s][t], ConcatOf([m[s][p], StarOf(m[p][p]), m[p][t]])])
  }

  lemma ThreeParts(reading: Reading, a: RegularExpression, b: RegularExpression, c: RegularExpression, w: Word)
    ensures Denotes(reading, ConcatOf([a, StarOf(b), c]), w) <==>
              exists u: Word, v: Word, x: Word ::
                (Denotes(reading, a, u) && DenotesStar(reading, b, v) && Denotes(reading, c, x)) && w == u + v + x
  {
    hide Denotes, DenotesAll, DenotesStar, ConcatOf;
    var tail := [StarOf(b), c];
    assert [a, StarOf(b), c] == [a] + tail && tail == [StarOf(b)] + [c];
    ConcatOfDenotes(reading, [a] + tail, w);
    if DenotesAll(reading, [a] + tail, w) {
      var k := SplitFirst(reading, a, tail, w);
      var j := SplitFirst(reading, StarOf(b), [c], w[k..]);
      StarOfDenotes(reading, b, w[k..][..j]);
      DenotesOne(reading, c, w[k..][j..]);
      assert w == w[..k] + w[k..][..j] + w[k..][j..];
    }
    if u: Word, v: Word, x: Word :|
      (Denotes(reading, a, u) && DenotesStar(reading, b, v) && Denotes(reading, c, x)) && w == u + v + x
    {
      StarOfDenotes(reading, b, v);
      DenotesOne(reading, a, u);
      DenotesOne(reading, StarOf(b), v);
      DenotesOne(reading, c, x);
      DenotesAppend(reading, [StarOf(b)], [c], v, x);
      DenotesAppend(reading, [a], tail, u, v + x);
      assert u + (v + x) == w;
    }
  }

  lemma TwoBranches(reading: Reading, a: RegularExpression, b: RegularExpression, w: Word)
    ensures Denotes(reading, UnionOf([a, b]), w) <==> Denotes(reading, a, w) || Denotes(reading, b, w)
  {
    hide Denotes, UnionOf;
    UnionOfDenotes(reading, [a, b], w);
    assert a in [a, b] && b in [a, b];
  }

  lemma NewEntryEliminated(reading: Reading, m: Matrix, p: nat, s: nat, t: nat)
    requires Square(m, |m|) && p < |m| && s < |m| && t < |m|
    ensures EntryEliminated(reading, m, p, s, t, NewEntry(m, p, s, t))
  {
    hide DenotesStar, UnionOf, ConcatOf, StarOf;
    forall w: Word
      ensures Denotes(reading, NewEntry(m, p, s, t), w) <==>
              Denotes(reading, m[s][t], w) || Through(reading, m, s, p, t, w)
    {
      if m[s][p] == Empty || m[p][t] == Empty {
        assert !Through(reading, m, s, p, t, w);
      } else {
        TwoBranches(reading, m[s][t], ConcatOf([m[s][p], StarOf(m[p][p]), m[p][t]]), w);
        ThreeParts(reading, m[s][p], m[p][p], m[p][t], w);
        ThroughIs(reading, m, s, p, t, w);
      }
    }
  }

  lemma ThroughIs(reading: Reading, m: Matrix, s: nat, p: nat, t: nat, w: Word)
    requires Square(m, |m|) && s < |m| && p < |m| && t < |m|
    ensures Through(reading, m, s, p, t, w) <==>
              exists u: Word, v: Word, x: Word ::
                (Denotes(reading, m[s][p], u) && DenotesStar(reading, m[p][p], v) && Denotes(reading, m[p][t], x))
                  && w == u + v + x
  {
    hide Denotes, DenotesStar;
    if u: Word, v: Word, x: Word :|
      (Denotes(reading, m[s][p], u) && DenotesStar(reading, m[p][p], v) && Denotes(reading, m[p][t], x))
        && w == u + v + x
    {
      assert ThroughParts(reading, m, s, p, t, u, v, x);
    }
    if Through(reading, m, s, p, t, w) {
      var u: Word, v: Word, x: Word :| ThroughParts(reading, m, s, p, t, u, v, x) && w == u + v + x;
    }
  }

  predicate ReversibleMatrix(m: Matrix) {
    forall row <- m :: EachReversible(row)
  }

  lemma NewEntryReversible(m: Matrix, p: nat, s: nat, t: nat)
    requires Square(m, |m|) && p < |m| && s < |m| && t < |m| && ReversibleMatrix(m)
    ensures Reversible(NewEntry(m, p, s, t))
  {
    hide Reversible, UnionOf, ConcatOf, StarOf;
    assert m[s] in m && m[p] in m;
    assert m[s][t] in m[s] && m[s][p] in m[s] && m[p][p] in m[p] && m[p][t] in m[p];
    StarOfReversible(m[p][p]);
    ConcatOfReversible([m[s][p], StarOf(m[p][p]), m[p][t]]);
    UnionOfReversible([m[s][t], ConcatOf([m[s][p], StarOf(m[p][p]), m[p][t]])]);
  }

  // Update the whole matrix for one pivot; the pivot's row and column are read before anything changes.
  method EliminatePivot(edges: Matrix, pivot: nat) returns (next: Matrix)
    requires Square(edges, |edges|) && pivot < |edges|
    ensures Square(next, |edges|)
    ensures forall s: nat, t: nat :: s < |edges| && t < |edges| ==> next[s][t] == NewEntry(edges, pivot, s, t)
  {
    var incoming := seq(|edges|, source requires 0 <= source < |edges| => edges[source][pivot]);
    var outgoing := edges[pivot];
    var round := StarOf(edges[pivot][pivot]);
    next := edges;
    for source := 0 to |edges|
      invariant Square(next, |edges|)
      invariant forall s: nat, t: nat :: s < source && t < |edges| ==> next[s][t] == NewEntry(edges, pivot, s, t)
      invariant forall s: nat :: source <= s < |edges| ==> next[s] == edges[s]
    {
      if incoming[source] != Empty {
        for target := 0 to |edges|
          invariant Square(next, |edges|)
          invariant forall s: nat, t: nat :: s < source && t < |edges| ==> next[s][t] == NewEntry(edges, pivot, s, t)
          invariant forall s: nat :: source < s < |edges| ==> next[s] == edges[s]
          invariant forall t: nat :: t < target ==> next[source][t] == NewEntry(edges, pivot, source, t)
          invariant forall t: nat :: target <= t < |edges| ==> next[source][t] == edges[source][t]
        {
          if outgoing[target] != Empty {
            var path := ConcatOf([incoming[source], round, outgoing[target]]);
            next := next[source := next[source][target := UnionOf([next[source][target], path])]];
          }
        }
      }
    }
  }

  // Eliminate the states below `count`: the matrix then denotes all walks through them.
  method Eliminate(ghost reading: Reading, edges: Matrix, count: nat) returns (solved: Matrix)
    requires Square(edges, |edges|) && count <= |edges|
    ensures Square(solved, |edges|) && SolvedUpto(reading, edges, solved, count)
    ensures ReversibleMatrix(edges) ==> ReversibleMatrix(solved)
  {
    hide SolvedUpto, EntryEliminated, NewEntry, Reversible;
    solved := edges;
    SolvedAtStart(reading, edges);
    for pivot := 0 to count
      invariant Square(solved, |edges|) && SolvedUpto(reading, edges, solved, pivot)
      invariant ReversibleMatrix(edges) ==> ReversibleMatrix(solved)
    {
      var next := EliminatePivot(solved, pivot);
      forall s: nat, t: nat | s < |edges| && t < |edges|
        ensures EntryEliminated(reading, solved, pivot, s, t, next[s][t])
      {
        NewEntryEliminated(reading, solved, pivot, s, t);
      }
      SolvedStep(reading, edges, solved, pivot, next);
      if ReversibleMatrix(solved) {
        forall s: nat, t: nat | s < |edges| && t < |edges| ensures Reversible(next[s][t]) {
          NewEntryReversible(solved, pivot, s, t);
        }
        ReversibleEntries(next);
      }
      solved := next;
    }
  }

  lemma ReversibleEntries(m: Matrix)
    requires Square(m, |m|) && forall s: nat, t: nat :: s < |m| && t < |m| ==> Reversible(m[s][t])
    ensures ReversibleMatrix(m)
  {
    hide Reversible;
    forall row <- m ensures EachReversible(row) {
      var s :| 0 <= s < |m| && m[s] == row;
      forall e <- row ensures Reversible(e) {
        var t :| 0 <= t < |row| && row[t] == e;
        assert e == m[s][t];
      }
    }
  }
}
