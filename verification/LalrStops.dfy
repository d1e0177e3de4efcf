/**
 When a byte stops the LALR recognizer: exactly when the limits have no room for it.
 */
module LalrStops {
  import opened Grammars
  import opened Runtime
  import opened ResidualGrammars
  import opened Lalr
  import opened LalrDriver
  import opened LalrAutomaton
  import opened LalrTermination
  import opened LalrTheorems
  import opened LalrFuel
  import opened LalrRoom
  import Terminals

  // Terminal `t` reads `w`, can come next after `n` reductions, and makes the stack too tall.
  ghost predicate PushShut(c: CompiledLalr, limits: RuntimeLimits, stack: seq<nat>, w: Word, t: nat, n: nat) {
    && t < |c.grammar.terminals| && Terminals.Matches(c.grammar.terminals[t], w)
    && (exists q: nat :: LeadsTo(c, stack, On(t), n, Shift(q)))
    && |Reductions(c.productions, c.table, stack, On(t), n).value| + 1 > limits.maxParseStack
  }

  ghost predicate ShiftShut(c: CompiledLalr, limits: RuntimeLimits, stack: seq<nat>, w: Word) {
    exists t: nat, n: nat :: PushShut(c, limits, stack, w, t, n)
  }

  // Some terminal that can come next starts with `w`.
  ghost predicate GoesOn(c: CompiledLalr, stack: seq<nat>, w: Word, t: nat) {
    t < |c.grammar.terminals| && CanShift(c, stack, t)
    && exists y: Word :: Terminals.Matches(c.grammar.terminals[t], w + y)
  }

  // No room for one more byte, where `w` is the part of a token read with it: too many bytes, no token open, or none
  // on the stack for the token that `w` is.
  ghost predicate ByteShut(c: CompiledLalr, limits: RuntimeLimits, st: State, w: Word) {
    || st.bytePosition + 1 > limits.maxInputBytes
    || (st.candidates == [] && TokensShut(c, limits, st.stack))
    || ShiftShut(c, limits, st.stack, w)
    || (st.bytePosition + 1 >= TWO_TO_THE_32 && exists t: nat :: GoesOn(c, st.stack, w, t))
  }

  lemma SettledTo(cf: Config, stack: seq<nat>, l: Lookahead) returns (n: nat)
    requires Settle(cf, stack, l, cf.fuel).Done?
    ensures var r := Settle(cf, stack, l, cf.fuel);
            && Reductions(cf.compiled.productions, cf.compiled.table, stack, l, n) == Some(r.state)
            && forall q: nat :: LeadsTo(cf.compiled, stack, l, n, Shift(q)) <==> r.value == Some(Shift(q))
    ensures forall m: nat, q: nat :: LeadsTo(cf.compiled, stack, l, m, Shift(q)) ==> m == n
  {
    hide Settle;
    var ps, table := cf.compiled.productions, cf.compiled.table;
    n := SettleReduces(cf, stack, l, cf.fuel);
    assert SettlesAfter(ps, table, stack, l, n);
    forall m: nat, q: nat | LeadsTo(cf.compiled, stack, l, m, Shift(q)) ensures m == n {
      assert SettlesAfter(ps, table, stack, l, m);
      SettlesUnique(ps, table, stack, l, n, m);
      SettlesUnique(ps, table, stack, l, m, n);
    }
  }

  // The accepted candidate is the token that `w` is, and its stack the one the token is pushed on.
  lemma AcceptedPush(cf: Config, stack: seq<nat>, v: Word, byte: Byte, candidates: seq<Candidate>)
    requires WellFormed(cf.compiled.grammar) && CandidatesFor(cf, stack, v, candidates)
    requires |StepAll(cf, candidates, byte).0| <= 1
    ensures var accepted := StepAll(cf, candidates, byte).0;
            ShiftShut(cf.compiled, cf.limits, stack, v + [byte]) <==>
            accepted != [] && |accepted[0].stack| + 1 > cf.limits.maxParseStack
  {
    hide StepAll, Settle, WellFormed, Reductions, LeadsTo;
    var w, accepted := v + [byte], StepAll(cf, candidates, byte).0;
    if accepted != [] {
      var d := accepted[0];
      AcceptedFacts(cf, stack, v, byte, candidates, d);
      var n := SettledTo(cf, stack, On(d.terminal));
      assert LeadsTo(cf.compiled, stack, On(d.terminal), n, Shift(d.shift));
      if |d.stack| + 1 > cf.limits.maxParseStack {
        assert PushShut(cf.compiled, cf.limits, stack, w, d.terminal, n);
      }
    }
    if ShiftShut(cf.compiled, cf.limits, stack, w) {
      var t: nat, n: nat :| PushShut(cf.compiled, cf.limits, stack, w, t, n);
      var q: nat :| LeadsTo(cf.compiled, stack, On(t), n, Shift(q));
      AcceptedTerminal(cf, stack, v, byte, candidates, t, q, n);
    }
  }

  // A terminal that reads `w` and can come next is the accepted candidate.
  lemma AcceptedTerminal(cf: Config, stack: seq<nat>, v: Word, byte: Byte, candidates: seq<Candidate>, t: nat, q: nat,
      n: nat)
    requires WellFormed(cf.compiled.grammar) && CandidatesFor(cf, stack, v, candidates)
    requires |StepAll(cf, candidates, byte).0| <= 1
    requires t < |cf.compiled.grammar.terminals| && Terminals.Matches(cf.compiled.grammar.terminals[t], v + [byte])
    requires LeadsTo(cf.compiled, stack, On(t), n, Shift(q))
    ensures var accepted := StepAll(cf, candidates, byte).0;
            && accepted != []
            && Reductions(cf.compiled.productions, cf.compiled.table, stack, On(t), n) == Some(accepted[0].stack)
  {
    hide StepAll, Settle, WellFormed, Reductions, LeadsTo;
    assert Settle(cf, stack, On(t), cf.fuel).Done?;
    var m := SettledTo(cf, stack, On(t));
    assert Shifts(cf, stack, t);
    var d := CompetitorSteps(cf, stack, v, byte, candidates, t);
  }

  // Something is read on exactly when some terminal that can come next starts with `w`.
  lemma ReadsOn(cf: Config, stack: seq<nat>, v: Word, byte: Byte, candidates: seq<Candidate>)
    requires WellFormed(cf.compiled.grammar) && CandidatesFor(cf, stack, v, candidates)
    ensures var (accepted, live) := StepAll(cf, candidates, byte);
            accepted != [] || live != [] <==> exists t: nat :: GoesOn(cf.compiled, stack, v + [byte], t)
  {
    hide StepAll, Settle, WellFormed, CanShift;
    var w := v + [byte];
    var (accepted, live) := StepAll(cf, candidates, byte);
    if accepted != [] {
      var d := accepted[0];
      AcceptedFacts(cf, stack, v, byte, candidates, d);
      ShiftableHere(cf, stack, d.terminal);
      assert w + [] == w;
      assert GoesOn(cf.compiled, stack, w, d.terminal);
    }
    if live != [] {
      LiveGoesOn(cf, stack, v, byte, candidates, live[0]);
    }
    if t: nat :| GoesOn(cf.compiled, stack, w, t) {
      GoingIsRead(cf, stack, v, byte, candidates, t);
    }
  }

  lemma LiveGoesOn(cf: Config, stack: seq<nat>, v: Word, byte: Byte, candidates: seq<Candidate>, d: Candidate)
    requires WellFormed(cf.compiled.grammar) && CandidatesFor(cf, stack, v, candidates)
    requires d in StepAll(cf, candidates, byte).1
    ensures GoesOn(cf.compiled, stack, v + [byte], d.terminal)
  {
    LiveCandidates(cf, stack, v, byte, candidates);
    hide StepAll, Settle, WellFormed, CanShift;
    assert CandidateFor(cf, stack, v + [byte], d);
    var terminal := cf.compiled.grammar.terminals[d.terminal];
    assert Terminals.WellFormedTerminal(terminal) by { TerminalWellFormed(cf.compiled.grammar, d.terminal); }
    var more := Terminals.LiveMeansExtensible(terminal, d.cursor);
    Terminals.RunAppend(terminal, Terminals.Start(terminal), v + [byte], more);
    ShiftableHere(cf, stack, d.terminal);
  }

  lemma TerminalWellFormed(g: ResidualGrammar, t: nat)
    requires WellFormed(g) && t < |g.terminals|
    ensures Terminals.WellFormedTerminal(g.terminals[t])
  {
    assert g.terminals[t] in g.terminals;
  }

  lemma GoingIsRead(cf: Config, stack: seq<nat>, v: Word, byte: Byte, candidates: seq<Candidate>, t: nat)
    requires WellFormed(cf.compiled.grammar) && CandidatesFor(cf, stack, v, candidates)
    requires GoesOn(cf.compiled, stack, v + [byte], t)
    ensures StepAll(cf, candidates, byte).0 != [] || StepAll(cf, candidates, byte).1 != []
  {
    hide StepAll, Settle, WellFormed, CanShift;
    var w, terminal := v + [byte], cf.compiled.grammar.terminals[t];
    var y: Word :| Terminals.Matches(terminal, w + y);
    TerminalWellFormed(cf.compiled.grammar, t);
    Terminals.RunAppend(terminal, Terminals.Start(terminal), w, y);
    ShiftableHere(cf, stack, t);
    var end := Terminals.Run(terminal, Terminals.Start(terminal), w);
    if y == [] {
      assert w + y == w;
    } else {
      Terminals.ExtensibleMeansLive(terminal, end.value, y);
    }
    var d := CompetitorSteps(cf, stack, v, byte, candidates, t);
  }

  // The ways a byte can fail, read off the candidates.
  lemma AdvanceByteSplit(cf: Config, st: State, byte: Byte)
    requires Offered(cf, st).Done? ==> |StepAll(cf, Offered(cf, st).value, byte).0| <= 1
    ensures AdvanceByte(cf, st, byte).Failed? <==>
              || st.bytePosition + 1 > cf.limits.maxInputBytes
              || Offered(cf, st).Failed?
              || var (accepted, live) := StepAll(cf, Offered(cf, st).value, byte);
                 || (accepted != [] && |accepted[0].stack| + 1 > cf.limits.maxParseStack)
                 || (st.bytePosition + 1 >= TWO_TO_THE_32 && (accepted != [] || live != []))
  {
    hide Settle, Candidates, StepAll;
  }

  // Main result: a byte fails exactly when the limits have no room for it.
  lemma ByteStops(cf: Config, first: seq<set<nat>>, a: Automaton, st: State, u: seq<Token>, k: nat, v: Word,
      byte: Byte)
    requires Ready(cf, first, a) && StateFor(cf, st, u, k, v) && (st.candidates == [] ==> Uncut(cf, st.stack))
    ensures AdvanceByte(cf, st, byte).Failed? <==> ByteShut(cf.compiled, cf.limits, st, v + [byte])
  {
    hide *;
    StateFacts(cf, st, u, k, v);
    ReadyFacts(cf, first, a);
    OfferedExact(cf, st, u, k, v);
    OfferedFails(cf, first, a, st, u, k, v);
    if Offered(cf, st).Done? {
      var candidates := Offered(cf, st).value;
      AtMostOneAccepts(cf, first, a, st.stack, v, byte, candidates);
      AcceptedPush(cf, st.stack, v, byte, candidates);
      ReadsOn(cf, st.stack, v, byte, candidates);
    }
    AdvanceByteSplit(cf, st, byte);
    ShutCases(cf, st, v + [byte]);
  }

  lemma ShutCases(cf: Config, st: State, w: Word)
    ensures ByteShut(cf.compiled, cf.limits, st, w) <==>
              || st.bytePosition + 1 > cf.limits.maxInputBytes
              || (st.candidates == [] && TokensShut(cf.compiled, cf.limits, st.stack))
              || ShiftShut(cf.compiled, cf.limits, st.stack, w)
              || (st.bytePosition + 1 >= TWO_TO_THE_32 && exists t: nat :: GoesOn(cf.compiled, st.stack, w, t))
  {
  }

  lemma OfferedFails(cf: Config, first: seq<set<nat>>, a: Automaton, st: State, u: seq<Token>, k: nat, v: Word)
    requires Ready(cf, first, a) && StateFor(cf, st, u, k, v) && (st.candidates == [] ==> Uncut(cf, st.stack))
    ensures Offered(cf, st).Failed? <==> st.candidates == [] && TokensShut(cf.compiled, cf.limits, st.stack)
  {
    hide Ready, ReachedBy, TokensFor, StartCandidates, TokensShut, Uncut, CandidatesFor;
    if st.candidates == [] {
      StartCandidatesExact(cf, first, a, st.stack, u, k);
    }
  }

  // Over whole runs: behind an input that has got through with ample fuel, one more byte fails exactly when the limits
  // have no room for it; `v` is the part of a token at the end of the input.
  lemma FeedStops(cf: Config, first: seq<set<nat>>, a: Automaton, x: Word, byte: Byte) returns (u: seq<Token>, v: Word)
    requires Ready(cf, first, a) && Ample(cf, x) && Feed(cf, x).Done? && Feed(cf, x).value
    ensures TokensFor(cf.compiled.grammar, u) && x == Spell(u) + v
    ensures Feed(cf, x + [byte]).Failed? <==> ByteShut(cf.compiled, cf.limits, Feed(cf, x).state, v + [byte])
  {
    hide *;
    var st, k := Feed(cf, x).state, 0;
    u, k, v := FeedSpells(cf, first, a, x);
    SpellsFacts(cf, st, u, k, v, x);
    StateFacts(cf, st, u, k, v);
    AmpleUncut(cf, x);
    ByteStops(cf, first, a, st, u, k, v, byte);
    FeedMore(cf, x, byte);
  }
}
