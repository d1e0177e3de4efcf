/**
 The lexical-safety decision behind the LALR backend: breadth-first searches over one terminal automaton and
 over products of two, decided exactly, and what the answer buys at run time.
 */
module LexicalSafety {
  import opened Grammars
  import opened Terminals

  // From some accepting state, acceptance is reached again by at least one more byte.
  ghost predicate AcceptsPastAcceptance(d: ByteDfa) {
    exists s: nat :: AcceptsPast(d, s)
  }

  ghost predicate AcceptsPast(d: ByteDfa, s: nat) {
    s < |d.transitions| && d.IsAccepting(s) && exists v: Word :: v != [] && AcceptsFrom(Dfa(d), AtState(s), v)
  }

  ghost predicate PrefixFree(t: CompiledTerminal) {
    t.Dfa? ==> !AcceptsPastAcceptance(t.dfa)
  }

  // A nonempty word that one of the two accepts while the other can still read it.
  ghost predicate OverlapOn(l: CompiledTerminal, r: CompiledTerminal, w: Word) {
    var a := Run(l, Start(l), w);
    var b := Run(r, Start(r), w);
    w != [] && a.Some? && b.Some? && (IsAccepting(l, a.value) || IsAccepting(r, b.value))
  }

  ghost predicate PrefixOverlap(l: CompiledTerminal, r: CompiledTerminal) {
    exists w: Word :: OverlapOn(l, r, w)
  }

  ghost predicate Safe(ts: seq<CompiledTerminal>) {
    && (forall i :: 0 <= i < |ts| ==> PrefixFree(ts[i]))
    && (forall i, j :: 0 <= i < j < |ts| ==> !PrefixOverlap(ts[i], ts[j]))
  }

  // ---------- One automaton ----------

  function Successors(d: ByteDfa, s: nat): set<nat> {
    set b: Byte | 0 <= b < 256 && !d.IsDead(d.NextState(s, b)) :: d.NextState(s, b)
  }

  lemma SuccessorsInRange(d: ByteDfa, s: nat)
    ensures forall q <- Successors(d, s) :: q < |d.transitions|
  {
  }

  // Reached from `s` by at least one byte.
  ghost predicate ReachedPast(d: ByteDfa, s: nat, q: nat) {
    exists v: Word :: v != [] && Run(Dfa(d), AtState(s), v) == Some(AtState(q))
  }

  lemma StepReaches(d: ByteDfa, s: nat, q: nat)
    requires q in Successors(d, s)
    ensures ReachedPast(d, s, q)
  {
    var b: Byte :| 0 <= b < 256 && !d.IsDead(d.NextState(s, b)) && q == d.NextState(s, b);
    assert Run(Dfa(d), AtState(s), [b]) == Some(AtState(q));
  }

  lemma StepExtends(d: ByteDfa, s: nat, q: nat, p: nat)
    requires ReachedPast(d, s, q) && p in Successors(d, q)
    ensures ReachedPast(d, s, p)
  {
    var v: Word :| v != [] && Run(Dfa(d), AtState(s), v) == Some(AtState(q));
    var b: Byte :| 0 <= b < 256 && !d.IsDead(d.NextState(q, b)) && p == d.NextState(q, b);
    RunOneMore(Dfa(d), AtState(s), v, b);
    assert v + [b] != [];
  }

  // A set closed under successors that starts with those of `s` holds every state reached past `s`.
  lemma {:induction false} ClosedHolds(d: ByteDfa, s: nat, seen: set<nat>, v: Word)
    requires Successors(d, s) <= seen && (forall q <- seen :: Successors(d, q) <= seen)
    requires v != [] && Run(Dfa(d), AtState(s), v).Some?
    ensures Run(Dfa(d), AtState(s), v).value.AtState? && Run(Dfa(d), AtState(s), v).value.state in seen
    decreases |v|
  {
    var front := v[..|v| - 1];
    var b := v[|v| - 1];
    assert front + [b] == v;
    RunOneMore(Dfa(d), AtState(s), front, b);
    if front != [] {
      ClosedHolds(d, s, seen, front);
      var q := Run(Dfa(d), AtState(s), front).value.state;
      assert d.NextState(q, b) in Successors(d, q);
    } else {
      assert d.NextState(s, b) in Successors(d, s);
    }
  }

  lemma RangeBounds(s: set<nat>, n: nat)
    requires forall q <- s :: q < n
    ensures |s| <= n
  {
    if n == 0 {
      assert s == {};
    } else {
      RangeBounds(s - {n - 1}, n - 1);
    }
  }

  method PushSuccessors(d: ByteDfa, s: nat, seen: set<nat>, queue: seq<nat>) returns (seen': set<nat>, queue': seq<nat>)
    ensures seen' == seen + Successors(d, s) && queue <= queue'
    ensures forall q :: q in queue' <==> q in queue || (q in seen' && q !in seen)
    ensures seen' == seen ==> queue' == queue
  {
    seen', queue' := seen, queue;
    for byte := 0 to 256
      invariant seen' == seen + (set b: Byte | 0 <= b < byte && !d.IsDead(d.NextState(s, b)) :: d.NextState(s, b))
      invariant queue <= queue' && (forall q :: q in queue' <==> q in queue || (q in seen' && q !in seen))
      invariant seen' == seen ==> queue' == queue
    {
      var next := d.NextState(s, byte);
      if !d.IsDead(next) && next !in seen' {
        seen' := seen' + {next};
        queue' := queue' + [next];
      }
    }
  }

  // Search from one accepting state.
  method AcceptsAgain(d: ByteDfa, s: nat) returns (again: bool)
    requires s < |d.transitions| && d.IsAccepting(s)
    ensures again <==> AcceptsPast(d, s)
  {
    var seen: set<nat>, queue: seq<nat> := PushSuccessors(d, s, {}, []);
    SuccessorsInRange(d, s);
    forall q <- seen ensures ReachedPast(d, s, q) {
      StepReaches(d, s, q);
    }
    while queue != []
      invariant Successors(d, s) <= seen
      invariant forall q <- seen :: q < |d.transitions| && ReachedPast(d, s, q)
      invariant forall q <- queue :: q in seen
      invariant forall q <- seen :: q in queue || (!d.IsAccepting(q) && Successors(d, q) <= seen)
      decreases |d.transitions| - |seen|, |queue|
    {
      RangeBounds(seen, |d.transitions|);
      var current := queue[0];
      var rest := queue[1..];
      assert queue == [current] + rest;
      if d.IsAccepting(current) {
        var v: Word :| v != [] && Run(Dfa(d), AtState(s), v) == Some(AtState(current));
        assert AcceptsFrom(Dfa(d), AtState(s), v);
        return true;
      }
      var before := seen;
      seen, queue := PushSuccessors(d, current, seen, rest);
      SuccessorsInRange(d, current);
      forall q <- seen ensures ReachedPast(d, s, q) {
        if q !in before {
          StepExtends(d, s, current, q);
        }
      }
      RangeBounds(seen, |d.transitions|);
      if seen != before {
        assert before < seen;
        SmallerSet(before, seen);
      }
    }
    if AcceptsPast(d, s) {
      var v: Word :| v != [] && AcceptsFrom(Dfa(d), AtState(s), v);
      ClosedHolds(d, s, seen, v);
    }
    return false;
  }

  lemma SmallerSet<T>(a: set<T>, b: set<T>)
    requires a < b
    ensures |a| < |b|
  {
    assert b == a + (b - a);
    assert |b| == |a| + |b - a|;
  }

  method IsPrefixFree(t: CompiledTerminal) returns (free: bool)
    ensures free <==> PrefixFree(t)
  {
    if t.Literal? {
      return true;
    }
    var d := t.dfa;
    for state := 0 to |d.transitions|
      invariant forall s: nat :: s < state ==> !AcceptsPast(d, s)
    {
      if d.IsAccepting(state) {
        var again := AcceptsAgain(d, state);
        if again {
          return false;
        }
      }
    }
    return true;
  }

  // ---------- Products of two ----------

  function CursorSpace(t: CompiledTerminal): set<Cursor> {
    match t
    case Literal(bytes) => set n | 0 <= n < |bytes| + 1 :: AtOffset(n)
    case Dfa(d) => set n | 0 <= n < |d.transitions| + 1 :: AtState(n)
  }

  lemma AdvanceInSpace(t: CompiledTerminal, c: Cursor, b: Byte)
    requires c in CursorSpace(t) && Advance(t, c, b).Some?
    ensures Advance(t, c, b).value in CursorSpace(t)
  {
  }

  function Pairs(l: CompiledTerminal, r: CompiledTerminal): set<(Cursor, Cursor)> {
    set a <- CursorSpace(l), b <- CursorSpace(r) :: (a, b)
  }

  // Both can read the byte.
  function Both(l: CompiledTerminal, r: CompiledTerminal, p: (Cursor, Cursor), b: Byte): Option<(Cursor, Cursor)> {
    match (Advance(l, p.0, b), Advance(r, p.1, b))
    case (Some(x), Some(y)) => Some((x, y))
    case _ => None
  }

  predicate EitherAccepts(l: CompiledTerminal, r: CompiledTerminal, p: (Cursor, Cursor)) {
    IsAccepting(l, p.0) || IsAccepting(r, p.1)
  }

  ghost predicate PairReached(l: CompiledTerminal, r: CompiledTerminal, p: (Cursor, Cursor)) {
    exists w: Word :: Run(l, Start(l), w) == Some(p.0) && Run(r, Start(r), w) == Some(p.1)
  }

  lemma PairExtends(l: CompiledTerminal, r: CompiledTerminal, p: (Cursor, Cursor), b: Byte) returns (w: Word)
    requires PairReached(l, r, p) && Both(l, r, p, b).Some?
    ensures w != [] && Run(l, Start(l), w) == Some(Both(l, r, p, b).value.0)
    ensures Run(r, Start(r), w) == Some(Both(l, r, p, b).value.1)
  {
    var v: Word :| Run(l, Start(l), v) == Some(p.0) && Run(r, Start(r), v) == Some(p.1);
    RunOneMore(l, Start(l), v, b);
    RunOneMore(r, Start(r), v, b);
    w := v + [b];
  }

  // All pairs one byte on are seen and accept nothing.
  ghost predicate PairDone(l: CompiledTerminal, r: CompiledTerminal, seen: set<(Cursor, Cursor)>, p: (Cursor, Cursor),
      upto: nat)
  {
    forall b: Byte :: 0 <= b < upto && Both(l, r, p, b).Some? ==>
      Both(l, r, p, b).value in seen && !EitherAccepts(l, r, Both(l, r, p, b).value)
  }

  lemma {:induction false} DonePairsCover(l: CompiledTerminal, r: CompiledTerminal, seen: set<(Cursor, Cursor)>,
      w: Word)
    requires (Start(l), Start(r)) in seen && forall p <- seen :: PairDone(l, r, seen, p, 256)
    requires Run(l, Start(l), w).Some? && Run(r, Start(r), w).Some?
    ensures (Run(l, Start(l), w).value, Run(r, Start(r), w).value) in seen
    ensures !OverlapOn(l, r, w)
    decreases |w|
  {
    if w != [] {
      var front := w[..|w| - 1];
      var b := w[|w| - 1];
      assert front + [b] == w;
      RunOneMore(l, Start(l), front, b);
      RunOneMore(r, Start(r), front, b);
      DonePairsCover(l, r, seen, front);
      var p := (Run(l, Start(l), front).value, Run(r, Start(r), front).value);
      assert PairDone(l, r, seen, p, 256);
      assert Both(l, r, p, b).Some?;
    }
  }

  lemma StartPair(l: CompiledTerminal, r: CompiledTerminal)
    ensures (Start(l), Start(r)) in Pairs(l, r) && PairReached(l, r, (Start(l), Start(r)))
  {
    assert Run(l, Start(l), []) == Some(Start(l)) && Run(r, Start(r), []) == Some(Start(r));
  }

  lemma NextPair(l: CompiledTerminal, r: CompiledTerminal, p: (Cursor, Cursor), b: Byte) returns (w: Word)
    requires p in Pairs(l, r) && PairReached(l, r, p) && Both(l, r, p, b).Some?
    ensures Both(l, r, p, b).value in Pairs(l, r) && PairReached(l, r, Both(l, r, p, b).value)
    ensures EitherAccepts(l, r, Both(l, r, p, b).value) ==> OverlapOn(l, r, w)
  {
    w := PairExtends(l, r, p, b);
    AdvanceInSpace(l, p.0, b);
    AdvanceInSpace(r, p.1, b);
  }

  lemma DoneGrows(l: CompiledTerminal, r: CompiledTerminal, was: set<(Cursor, Cursor)>, seen: set<(Cursor, Cursor)>,
      p: (Cursor, Cursor), upto: nat)
    requires PairDone(l, r, was, p, upto) && was <= seen
    ensures PairDone(l, r, seen, p, upto)
  {
  }

  lemma DoneMore(l: CompiledTerminal, r: CompiledTerminal, seen: set<(Cursor, Cursor)>, p: (Cursor, Cursor), b: Byte)
    requires PairDone(l, r, seen, p, b)
    requires Both(l, r, p, b).Some? ==> Both(l, r, p, b).value in seen && !EitherAccepts(l, r, Both(l, r, p, b).value)
    ensures PairDone(l, r, seen, p, b + 1)
  {
  }

  lemma DoneNone(l: CompiledTerminal, r: CompiledTerminal, seen: set<(Cursor, Cursor)>, p: (Cursor, Cursor))
    ensures PairDone(l, r, seen, p, 0)
  {
  }

  lemma OverlapFound(l: CompiledTerminal, r: CompiledTerminal, w: Word)
    requires OverlapOn(l, r, w)
    ensures PrefixOverlap(l, r)
  {
  }

  lemma NoOverlap(l: CompiledTerminal, r: CompiledTerminal, seen: set<(Cursor, Cursor)>)
    requires (Start(l), Start(r)) in seen && forall p <- seen :: PairDone(l, r, seen, p, 256)
    ensures !PrefixOverlap(l, r)
  {
    if PrefixOverlap(l, r) {
      var w: Word :| OverlapOn(l, r, w);
      DonePairsCover(l, r, seen, w);
    }
  }

  // Breadth-first over the pairs of cursors that read a common word.
  method HavePrefixOverlap(l: CompiledTerminal, r: CompiledTerminal) returns (overlap: bool)
    ensures overlap <==> PrefixOverlap(l, r)
  {
    hide *;
    var start := (Start(l), Start(r));
    var queue: seq<(Cursor, Cursor)> := [start];
    var seen := {start};
    StartPair(l, r);
    while queue != []
      invariant start in seen && seen <= Pairs(l, r)
      invariant forall p <- seen :: PairReached(l, r, p)
      invariant forall p <- queue :: p in seen
      invariant forall p <- seen :: p in queue || PairDone(l, r, seen, p, 256)
      decreases |Pairs(l, r)| - |seen|, |queue|
    {
      var pair := queue[0];
      ghost var before := seen;
      ghost var measure := |queue|;
      assert queue == [pair] + queue[1..];
      queue := queue[1..];
      DoneNone(l, r, seen, pair);
      for byte := 0 to 256
        invariant before <= seen <= Pairs(l, r)
        invariant forall p <- seen :: PairReached(l, r, p)
        invariant forall p <- queue :: p in seen
        invariant forall p <- seen :: p in queue || p == pair || PairDone(l, r, seen, p, 256)
        invariant PairDone(l, r, seen, pair, byte)
        invariant seen == before ==> |queue| < measure
      {
        var next := Both(l, r, pair, byte);
        if next.Some? {
          ghost var w := NextPair(l, r, pair, byte);
          if EitherAccepts(l, r, next.value) {
            OverlapFound(l, r, w);
            return true;
          }
          if next.value !in seen {
            ghost var was := seen;
            seen := seen + {next.value};
            queue := queue + [next.value];
            DoneGrows(l, r, was, seen, pair, byte);
            forall p <- was | PairDone(l, r, was, p, 256) ensures PairDone(l, r, seen, p, 256) {
              DoneGrows(l, r, was, seen, p, 256);
            }
          }
        }
        DoneMore(l, r, seen, pair, byte);
      }
      SubsetSize(seen, Pairs(l, r));
      if before != seen {
        SmallerSet(before, seen);
      }
    }
    NoOverlap(l, r, seen);
    return false;
  }

  lemma SubsetSize<T>(a: set<T>, b: set<T>)
    requires a <= b
    ensures |a| <= |b|
  {
    if a != b {
      SmallerSet(a, b);
    }
  }

  // The decision is exact.
  method LexicallySafe(ts: seq<CompiledTerminal>) returns (safe: bool)
    ensures safe <==> Safe(ts)
  {
    for i := 0 to |ts|
      invariant forall k :: 0 <= k < i ==> PrefixFree(ts[k])
    {
      var free := IsPrefixFree(ts[i]);
      if !free {
        return false;
      }
    }
    for i := 0 to |ts|
      invariant forall k, j :: 0 <= k < i && k < j < |ts| ==> !PrefixOverlap(ts[k], ts[j])
    {
      for j := i + 1 to |ts|
        invariant forall k :: i < k < j ==> !PrefixOverlap(ts[i], ts[k])
      {
        var overlap := HavePrefixOverlap(ts[i], ts[j]);
        if overlap {
          return false;
        }
      }
    }
    return true;
  }

  // ---------- What safety buys ----------

  lemma OverlapSymmetric(l: CompiledTerminal, r: CompiledTerminal, w: Word)
    requires OverlapOn(l, r, w)
    ensures OverlapOn(r, l, w)
  {
  }

  // An accepting cursor of a safe terminal has no accepting continuation.
  lemma AcceptanceFinal(ts: seq<CompiledTerminal>, i: nat, u: Word, v: Word)
    requires Safe(ts) && i < |ts| && WellFormedTerminal(ts[i])
    requires Matches(ts[i], u) && Matches(ts[i], u + v)
    ensures v == []
  {
    var t := ts[i];
    assert PrefixFree(ts[i]);
    match t
    case Literal(bytes) =>
      LiteralRun(bytes, 0, u);
      LiteralRun(bytes, 0, u + v);
    case Dfa(d) =>
      RunAppend(t, Start(t), u, v);
      RunStays(d, 0, u);
      var end := Run(t, Start(t), u).value;
      assert v != [] ==> AcceptsFrom(Dfa(d), AtState(end.state), v);
      assert v != [] ==> AcceptsPast(d, end.state);
  }

  lemma {:induction false} RunStays(d: ByteDfa, s: nat, w: Word)
    requires w != [] && Run(Dfa(d), AtState(s), w).Some?
    ensures Run(Dfa(d), AtState(s), w).value.AtState? && Run(Dfa(d), AtState(s), w).value.state < |d.transitions|
    decreases |w|
  {
    if |w| > 1 {
      RunStays(d, d.NextState(s, w[0]), w[1..]);
    }
  }

  // A word of one safe terminal that another one can read to acceptance at any point is that terminal's word:
  // committing at the first accepting byte loses no tokenisation.
  lemma CommitIsForced(ts: seq<CompiledTerminal>, i: nat, j: nat, u: Word, v: Word)
    requires Safe(ts) && i < |ts| && j < |ts| && WellFormedTerminal(ts[i]) && WellFormedTerminal(ts[j])
    requires Matches(ts[i], u) && Matches(ts[j], u + v)
    ensures i == j && v == []
  {
    assert u != [];
    if i == j {
      AcceptanceFinal(ts, i, u, v);
    } else {
      RunAppend(ts[j], Start(ts[j]), u, v);
      assert OverlapOn(ts[i], ts[j], u);
      OverlapSymmetric(ts[i], ts[j], u);
      assert PrefixOverlap(ts[i], ts[j]) && PrefixOverlap(ts[j], ts[i]);
    }
  }
}
