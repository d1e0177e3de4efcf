/**
 From the regular-expression library's automaton to the byte automaton of a terminal: states renumbered in the order a
 breadth-first search meets them, liveness computed on the result.
 */
module ByteAutomata {
  import opened Grammars
  import opened CompileErrors
  import opened Terminals
  import opened RegularExpressions
  import opened Counting
  import Liveness

  // An automaton as the library hands it over: its own state numbers, no transition where it is dead or gives up.
  datatype RawDfa = RawDfa(start: nat, next: (nat, Byte) -> Option<nat>, matches: nat -> bool)

  predicate RawAccepts(raw: RawDfa, s: nat, w: Word)
    decreases |w|
  {
    if w == [] then raw.matches(s)
    else
      match raw.next(s, w[0])
      case None => false
      case Some(q) => RawAccepts(raw, q, w[1..])
  }

  // The library: an automaton for an expression, or an error of its own.
  type Compiler = RegularExpression -> Result<RawDfa>

  // What the library promises: an automaton for exactly the words of the expression, or an error of its kinds.
  ghost predicate CompilesExactly(meaning: Meaning, compile: Compiler) {
    && (forall e :: compile(e).Ok? ==> RawFor(meaning, compile(e).value, e))
    && (forall e :: compile(e).Err? ==> compile(e).error.ResourceLimitExceeded? || compile(e).error.InternalError?)
  }

  ghost predicate RawFor(meaning: Meaning, raw: RawDfa, e: RegularExpression) {
    forall w: Word :: RawAccepts(raw, raw.start, w) <==> Denotes(Forwards(meaning), e, w)
  }

  // A limit met on a terminal, the library's own included, is reported as one on terminals.
  function Restaged(error: CompileError): CompileError {
    if error.ResourceLimitExceeded? then error.(stage := TerminalCompilation) else error
  }

  // So many states are reached, each counted once.
  ghost predicate ManyReached(raw: RawDfa, n: nat) {
    exists order: seq<nat> :: |order| == n && Distinct(order) && OnlyReached(raw, order)
  }

  // The automaton of the expression has more states than are allowed.
  ghost predicate StatesOver(compile: Compiler, e: RegularExpression, maxStates: nat, error: CompileError) {
    && error.ResourceLimitExceeded? && error.stage == TerminalCompilation
    && error.observed > error.limit == maxStates
    && if e == Empty then error.observed == 1 else compile(e).Ok? && ManyReached(compile(e).value, error.observed)
  }

  // Compiling the expression fails on its states or in the library.
  ghost predicate CompileFails(compile: Compiler, e: RegularExpression, maxStates: nat, error: CompileError) {
    StatesOver(compile, e, maxStates, error) || compile(e) == Err(error)
  }

  // The automaton of the expression has so many states: those that are reached.
  ghost predicate StateCount(compile: Compiler, e: RegularExpression, n: nat) {
    if e == Empty then n == 1
    else compile(e).Ok? && exists order: seq<nat> :: |order| == n && NumbersReached(compile(e).value, order)
  }

  // The byte automaton of an expression: its words, and which states are live.
  ghost predicate DfaFor(meaning: Meaning, d: ByteDfa, e: RegularExpression) {
    LivenessExact(d) && forall w: Word :: Matches(Dfa(d), w) <==> Denotes(Forwards(meaning), e, w)
  }

  // Where the start leads over `w`.
  function RawRun(raw: RawDfa, w: Word): Option<nat>
    decreases |w|
  {
    if w == [] then Some(raw.start)
    else
      match RawRun(raw, w[..|w| - 1])
      case None => None
      case Some(s) => raw.next(s, w[|w| - 1])
  }

  ghost predicate RawReached(raw: RawDfa, s: nat) {
    exists w: Word :: RawRun(raw, w) == Some(s)
  }

  lemma ReachedNext(raw: RawDfa, s: nat, b: Byte)
    requires RawReached(raw, s) && raw.next(s, b).Some?
    ensures RawReached(raw, raw.next(s, b).value)
  {
    var w: Word :| RawRun(raw, w) == Some(s);
    assert (w + [b])[..|w|] == w;
    assert RawRun(raw, w + [b]) == raw.next(s, b);
  }

  // ---------- Renumbering ----------

  // Every state numbered is reached.
  ghost predicate OnlyReached(raw: RawDfa, order: seq<nat>) {
    forall s <- order :: RawReached(raw, s)
  }

  // Exactly the reached states, each once.
  ghost predicate NumbersReached(raw: RawDfa, order: seq<nat>) {
    && (forall s: nat :: s in order <==> RawReached(raw, s))
    && (forall i, j :: 0 <= i < j < |order| ==> order[i] != order[j])
  }

  // The states met so far, in order; a state's number is its place.
  ghost predicate Numbered(order: seq<nat>, stable: map<nat, nat>) {
    && (forall i: nat :: i < |order| ==> order[i] in stable && stable[order[i]] == i)
    && (forall s <- stable :: stable[s] < |order| && order[stable[s]] == s)
  }

  // Where byte `b` leads from raw state `s`, in the new numbers.
  ghost predicate Entry(raw: RawDfa, order: seq<nat>, s: nat, b: Byte, target: nat) {
    match raw.next(s, b)
    case None => target == DEAD
    case Some(q) => target < |order| && order[target] == q
  }

  ghost predicate RowFor(raw: RawDfa, order: seq<nat>, s: nat, row: Row, upto: nat) {
    forall b: Byte :: if b < upto then Entry(raw, order, s, b, row[b]) else row[b] == DEAD
  }

  ghost predicate RowsFor(raw: RawDfa, order: seq<nat>, transitions: seq<Row>, accepting: seq<bool>) {
    && |transitions| == |accepting| <= |order|
    && (forall i: nat :: i < |transitions| ==> RowFor(raw, order, order[i], transitions[i], 256))
    && (forall i: nat :: i < |accepting| ==> accepting[i] == raw.matches(order[i]))
  }

  lemma RowGrows(raw: RawDfa, order: seq<nat>, more: seq<nat>, s: nat, row: Row, upto: nat)
    requires RowFor(raw, order, s, row, upto) && order <= more
    ensures RowFor(raw, more, s, row, upto)
  {
    forall b: Byte ensures if b < upto then Entry(raw, more, s, b, row[b]) else row[b] == DEAD {
      assert b < upto ==> Entry(raw, order, s, b, row[b]);
    }
  }

  lemma RowsGrow(raw: RawDfa, order: seq<nat>, more: seq<nat>, transitions: seq<Row>, accepting: seq<bool>)
    requires RowsFor(raw, order, transitions, accepting) && order <= more
    ensures RowsFor(raw, more, transitions, accepting)
  {
    hide RowFor;
    forall i: nat | i < |transitions| ensures RowFor(raw, more, more[i], transitions[i], 256) {
      RowGrows(raw, order, more, order[i], transitions[i], 256);
    }
  }

  lemma RowSet(raw: RawDfa, order: seq<nat>, s: nat, row: Row, b: Byte, target: nat)
    requires RowFor(raw, order, s, row, b) && Entry(raw, order, s, b, target)
    ensures RowFor(raw, order, s, row[b := target], b + 1)
  {
  }

  // One state: its row, and the states it is the first to lead to.
  method ExpandRow(raw: RawDfa, s: nat, maxStates: nat, ghost order: seq<nat>, stable: map<nat, nat>, queue: seq<nat>)
    returns (row: Row, ghost order': seq<nat>, stable': map<nat, nat>, queue': seq<nat>, error: Option<CompileError>)
    requires Numbered(order, stable) && |stable| == |order| <= maxStates
    requires RawReached(raw, s) && OnlyReached(raw, order)
    ensures error.Some? ==> exists n: nat :: n > maxStates && ManyReached(raw, n)
                                             && error.value == ResourceLimitExceeded(TerminalCompilation, n, maxStates)
    ensures error.None? ==> RowFor(raw, order', s, row, 256) && order <= order' && Numbered(order', stable')
    ensures error.None? ==> |stable'| == |order'| <= maxStates && queue' == queue + order'[|order|..]
    ensures error.None? ==> OnlyReached(raw, order')
  {
    hide RowFor, Entry, RawReached, ManyReached;
    row := seq(256, _ => DEAD);
    order', stable', queue', error := order, stable, queue, None;
    DeadRow(raw, order, s);
    for b := 0 to 256
      invariant RowFor(raw, order', s, row, b) && order <= order' && Numbered(order', stable')
      invariant |stable'| == |order'| <= maxStates
      invariant queue' == queue + order'[|order|..] && error.None? && OnlyReached(raw, order')
    {
      var byte: Byte := b;
      var next := raw.next(s, byte);
      if next.Some? {
        var q := next.value;
        if q !in stable' {
          if |stable'| + 1 > maxStates {
            ReachedNext(raw, s, byte);
            OneMoreReached(raw, order', stable', q);
            error := Some(ResourceLimitExceeded(TerminalCompilation, |stable'| + 1, maxStates));
            return;
          }
          RowGrows(raw, order', order' + [q], s, row, b);
          ReachedNext(raw, s, byte);
          stable' := stable'[q := |stable'|];
          queue' := queue' + [q];
          order' := order' + [q];
        }
        EntrySome(raw, order', s, byte, stable'[q]);
        RowSet(raw, order', s, row, byte, stable'[q]);
        row := row[byte := stable'[q]];
      } else {
        EntryNone(raw, order', s, byte);
        RowSet(raw, order', s, row, byte, DEAD);
        RowAt(raw, order', s, row, byte);
        assert row[byte := DEAD] == row;
      }
    }
  }

  lemma OneMoreReached(raw: RawDfa, order: seq<nat>, stable: map<nat, nat>, q: nat)
    requires Numbered(order, stable) && |stable| == |order| && OnlyReached(raw, order)
    requires q !in stable && RawReached(raw, q)
    ensures ManyReached(raw, |stable| + 1)
  {
    hide RawReached;
    var more := order + [q];
    assert Distinct(more) && OnlyReached(raw, more);
  }

  lemma StartAlone(raw: RawDfa)
    ensures ManyReached(raw, 1)
  {
    StartNumbered(raw);
    hide RawReached;
    assert Distinct([raw.start]) && OnlyReached(raw, [raw.start]);
  }

  lemma DeadRow(raw: RawDfa, order: seq<nat>, s: nat)
    ensures RowFor(raw, order, s, seq(256, _ => DEAD), 0)
  {
  }

  lemma RowAt(raw: RawDfa, order: seq<nat>, s: nat, row: Row, b: Byte)
    requires RowFor(raw, order, s, row, b)
    ensures row[b] == DEAD
  {
  }

  lemma EntrySome(raw: RawDfa, order: seq<nat>, s: nat, b: Byte, target: nat)
    requires raw.next(s, b).Some? && target < |order| && order[target] == raw.next(s, b).value
    ensures Entry(raw, order, s, b, target)
  {
  }

  lemma EntryNone(raw: RawDfa, order: seq<nat>, s: nat, b: Byte)
    requires raw.next(s, b).None?
    ensures Entry(raw, order, s, b, DEAD)
  {
  }

  lemma RowsMore(raw: RawDfa, order: seq<nat>, transitions: seq<Row>, accepting: seq<bool>, row: Row)
    requires RowsFor(raw, order, transitions, accepting) && |transitions| < |order|
    requires RowFor(raw, order, order[|transitions|], row, 256)
    ensures RowsFor(raw, order, transitions + [row], accepting + [raw.matches(order[|transitions|])])
  {
    hide RowFor;
  }

  // The states are processed in the order of their numbers, so the error about that order never arises.
  method RenumberStates(raw: RawDfa, maxStates: nat) returns (r: Result<(seq<Row>, seq<bool>)>, ghost order: seq<nat>)
    ensures r.Err? ==> exists n: nat :: n > maxStates && ManyReached(raw, n)
                                        && r.error == ResourceLimitExceeded(TerminalCompilation, n, maxStates)
    ensures r.Ok? ==> order != [] && order[0] == raw.start && |order| == |r.value.0| <= maxStates
                      && RowsFor(raw, order, r.value.0, r.value.1)
    ensures r.Ok? ==> NumbersReached(raw, order)
  {
    hide RowFor, RawReached, Numbered, OnlyReached, NumbersReached, RowsFor, ManyReached;
    StartNumbered(raw);
    var stable: map<nat, nat> := map[raw.start := 0];
    var queue: seq<nat> := [raw.start];
    var transitions: seq<Row>, accepting: seq<bool> := [], [];
    order := [raw.start];
    if 1 > maxStates {
      StartAlone(raw);
      return Err(ResourceLimitExceeded(TerminalCompilation, 1, maxStates)), order;
    }
    while queue != []
      invariant order != [] && order[0] == raw.start && Numbered(order, stable) && |stable| == |order| <= maxStates
      invariant |transitions| == |accepting| <= |order| && queue == order[|transitions|..]
      invariant RowsFor(raw, order, transitions, accepting)
      invariant OnlyReached(raw, order)
      decreases maxStates - |transitions|
    {
      var current := queue[0];
      NumberedAt(raw, order, stable, |transitions|);
      assert current == order[|transitions|] && stable[current] == |transitions|;
      ghost var before := order;
      var row, more, stable', queue', error := ExpandRow(raw, current, maxStates, order, stable, queue[1..]);
      if error.Some? {
        return Err(error.value), order;
      }
      RowsGrow(raw, before, more, transitions, accepting);
      RowsMore(raw, more, transitions, accepting, row);
      order, stable, queue := more, stable', queue';
      transitions := transitions + [row];
      accepting := accepting + [raw.matches(current)];
      assert queue == order[|transitions|..];
    }
    EverythingNumbered(raw, order, stable, transitions, accepting);
    r := Ok((transitions, accepting));
  }

  lemma StartNumbered(raw: RawDfa)
    ensures Numbered([raw.start], map[raw.start := 0]) && OnlyReached(raw, [raw.start])
    ensures RowsFor(raw, [raw.start], [], [])
  {
    assert RawRun(raw, []) == Some(raw.start);
  }

  lemma NumberedAt(raw: RawDfa, order: seq<nat>, stable: map<nat, nat>, i: nat)
    requires Numbered(order, stable) && OnlyReached(raw, order) && i < |order|
    ensures order[i] in stable && stable[order[i]] == i && RawReached(raw, order[i])
  {
    hide RawReached;
    assert order[i] in order;
  }

  // Complete rows lead only to numbered states, so every reached state has a number.
  lemma EverythingNumbered(raw: RawDfa, order: seq<nat>, stable: map<nat, nat>, transitions: seq<Row>,
      accepting: seq<bool>)
    requires order != [] && order[0] == raw.start && Numbered(order, stable) && OnlyReached(raw, order)
    requires RowsFor(raw, order, transitions, accepting) && |transitions| == |order|
    ensures NumbersReached(raw, order)
  {
    hide RowsFor;
    forall s: nat | RawReached(raw, s) ensures s in order {
      var w: Word :| RawRun(raw, w) == Some(s);
      RunNumbered(raw, order, transitions, accepting, w);
    }
  }

  lemma {:induction false} RunNumbered(raw: RawDfa, order: seq<nat>, transitions: seq<Row>, accepting: seq<bool>,
      w: Word)
    requires RowsFor(raw, order, transitions, accepting) && |transitions| == |order| && raw.start in order
    requires RawRun(raw, w).Some?
    ensures RawRun(raw, w).value in order
    decreases |w|
  {
    if w != [] {
      var front, b := w[..|w| - 1], w[|w| - 1];
      RunNumbered(raw, order, transitions, accepting, front);
      var i: nat :| i < |order| && order[i] == RawRun(raw, front).value;
      assert RowFor(raw, order, order[i], transitions[i], 256);
      assert Entry(raw, order, order[i], b, transitions[i][b]);
    }
  }

  // ---------- What the renumbered automaton accepts ----------

  lemma {:induction false} RenumberedAccepts(raw: RawDfa, order: seq<nat>, transitions: seq<Row>, accepting: seq<bool>,
      live: seq<bool>, i: nat, w: Word)
    requires RowsFor(raw, order, transitions, accepting) && |transitions| == |order| <= DEAD && i < |order|
    ensures AcceptsFrom(Dfa(ByteDfa(transitions, accepting, live)), AtState(i), w) <==> RawAccepts(raw, order[i], w)
    decreases |w|
  {
    if w != [] {
      var b := w[0];
      assert RowFor(raw, order, order[i], transitions[i], 256);
      assert Entry(raw, order, order[i], b, transitions[i][b]);
      if raw.next(order[i], b).Some? {
        RenumberedAccepts(raw, order, transitions, accepting, live, transitions[i][b], w[1..]);
      }
    }
  }

  lemma RenumberedInRange(raw: RawDfa, order: seq<nat>, transitions: seq<Row>, accepting: seq<bool>)
    requires RowsFor(raw, order, transitions, accepting) && |transitions| == |order|
    ensures Liveness.TargetsInRange(transitions)
  {
    forall s: nat, b: nat | s < |transitions| && b < 256
      ensures transitions[s][b] == DEAD || transitions[s][b] < |transitions|
    {
      assert RowFor(raw, order, order[s], transitions[s], 256);
      var byte: Byte := b;
      assert Entry(raw, order, order[s], byte, transitions[s][byte]);
    }
  }

  lemma RenumberedFor(meaning: Meaning, e: RegularExpression, raw: RawDfa, order: seq<nat>, transitions: seq<Row>,
      accepting: seq<bool>, live: seq<bool>)
    requires RowsFor(raw, order, transitions, accepting) && |transitions| == |order| <= DEAD && order != []
    requires order[0] == raw.start
    requires RawFor(meaning, raw, e) && LivenessExact(ByteDfa(transitions, accepting, live))
    ensures DfaFor(meaning, ByteDfa(transitions, accepting, live), e)
  {
    hide RowsFor, LivenessExact, Denotes;
    var d := ByteDfa(transitions, accepting, live);
    forall w: Word ensures Matches(Dfa(d), w) <==> Denotes(Forwards(meaning), e, w) {
      RenumberedAccepts(raw, order, transitions, accepting, live, 0, w);
    }
  }

  // ---------- Compiling an expression ----------

  const NOTHING := ByteDfa([seq(256, _ => DEAD)], [false], [false])

  lemma NothingFor(meaning: Meaning)
    ensures DfaFor(meaning, NOTHING, Empty)
  {
    forall s: nat, w: Word ensures !AcceptsFrom(Dfa(NOTHING), AtState(s), w) {
      if w != [] {
        assert NOTHING.IsDead(NOTHING.NextState(s, w[0]));
      }
    }
  }

  method CompileByteDfa(ghost meaning: Meaning, compile: Compiler, maxStates: StateLimit, e: RegularExpression)
      returns (r: Result<ByteDfa>)
    requires CompilesExactly(meaning, compile)
    ensures r.Ok? ==> DfaFor(meaning, r.value, e)
    ensures r.Ok? ==> |r.value.transitions| <= maxStates && StateCount(compile, e, |r.value.transitions|)
    ensures r.Err? ==> CompileFails(compile, e, maxStates, r.error)
  {
    hide DfaFor, RowsFor, ManyReached, NumbersReached, RawFor, Liveness.TargetsInRange, LivenessExact, Denotes;
    if e == Empty {
      if 1 > maxStates {
        return Err(ResourceLimitExceeded(TerminalCompilation, 1, maxStates));
      }
      NothingFor(meaning);
      return Ok(NOTHING);
    }
    var raw := compile(e);
    if raw.Err? {
      return Err(raw.error);
    }
    assert RawFor(meaning, raw.value, e);
    var renumbered, order := RenumberStates(raw.value, maxStates);
    if renumbered.Err? {
      return Err(renumbered.error);
    }
    var (transitions, accepting) := renumbered.value;
    RenumberedInRange(raw.value, order, transitions, accepting);
    RowsSize(raw.value, order, transitions, accepting);
    var live := Liveness.ComputeLiveness(transitions, accepting);
    RenumberedFor(meaning, e, raw.value, order, transitions, accepting, live.value);
    return Ok(ByteDfa(transitions, accepting, live.value));
  }

  lemma RowsSize(raw: RawDfa, order: seq<nat>, transitions: seq<Row>, accepting: seq<bool>)
    requires RowsFor(raw, order, transitions, accepting)
    ensures |transitions| == |accepting|
  {
  }
}
