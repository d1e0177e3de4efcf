/**
 What the LALR recognizer promises for every conflict-free, lexically safe table and every input: it is live
 exactly on the prefixes of sentences, accepts exactly the sentences, and fails only on resource limits.
 */
module LalrTheorems {
  import opened Grammars
  import opened Terminals
  import opened Runtime
  import opened ResidualGrammars
  import opened Lalr
  import opened LalrAutomaton
  import opened LalrSoundness
  import opened LalrViability
  import opened LalrTermination
  import opened LalrDriver
  import LalrBuild
  import LexicalSafety

  // A usable compiled table over a productive grammar, with the automaton it was read off.
  ghost predicate Ready(cf: Config, first: seq<set<nat>>, a: Automaton) {
    && LalrBuild.BuiltOver(cf.compiled, first, a)
    && LalrBuild.IsUsable(cf.compiled)
    && Productive(cf.compiled.grammar)
  }

  lemma ReadyFacts(cf: Config, first: seq<set<nat>>, a: Automaton)
    requires Ready(cf, first, a)
    ensures Usable(cf.compiled.grammar, first, a, cf.compiled.table) && Productive(cf.compiled.grammar)
    ensures AutomatonFor(cf.compiled.grammar, first, a) && TableSound(cf.compiled.grammar, a, cf.compiled.table)
    ensures cf.compiled.productions == AugmentedProductions(cf.compiled.grammar)
    ensures LexicalSafety.Safe(cf.compiled.grammar.terminals) && WellFormed(cf.compiled.grammar)
  {
  }

  // ---------- Settling is reducing ----------

  lemma {:induction false} SettleReduces(cf: Config, stack: seq<nat>, l: Lookahead, fuel: nat) returns (n: nat)
    requires Settle(cf, stack, l, fuel).Done?
    ensures var r := Settle(cf, stack, l, fuel);
            && Reductions(cf.compiled.productions, cf.compiled.table, stack, l, n) == Some(r.state)
            && r.state != [] && r.value == FindAction(cf.compiled.table, r.state[|r.state| - 1], l)
            && !(r.value.Some? && r.value.value.Reduce?)
    decreases fuel
  {
    match FindAction(cf.compiled.table, stack[|stack| - 1], l)
    case Some(Reduce(p)) =>
      var next := ReduceBy(cf.compiled.productions, cf.compiled.table, stack, p).value;
      var k := SettleReduces(cf, next, l, fuel - 1);
      n := k + 1;
    case _ => n := 0;
  }

  // Failing means a limit, missing fuel, or a fault of the machine.
  lemma {:induction false} SettleFails(cf: Config, stack: seq<nat>, l: Lookahead, fuel: nat)
      returns (n: nat, at: seq<nat>)
    requires Settle(cf, stack, l, fuel).Failed? && stack != []
    ensures Reductions(cf.compiled.productions, cf.compiled.table, stack, l, n) == Some(at) && n <= fuel
    ensures var e := Settle(cf, stack, l, fuel).error;
            || (Overrun(cf.limits, e) && e.resource == ParseStack && |at| > cf.limits.maxParseStack)
            || (e == NotSettled && n == fuel
               && MoveOn(cf.compiled.productions, cf.compiled.table, at, l) !in {Accepting, NoAction})
            || (e == InternalInvariant && MoveOn(cf.compiled.productions, cf.compiled.table, at, l) == Fault)
    decreases fuel
  {
    var p := FindAction(cf.compiled.table, stack[|stack| - 1], l).value.production;
    var next := ReduceBy(cf.compiled.productions, cf.compiled.table, stack, p);
    if fuel == 0 || next.None? {
      n, at := 0, stack;
    } else if |next.value| > cf.limits.maxParseStack {
      n, at := 1, next.value;
      assert Reductions(cf.compiled.productions, cf.compiled.table, next.value, l, 0) == Some(at);
    } else {
      var k: nat;
      k, at := SettleFails(cf, next.value, l, fuel - 1);
      n := k + 1;
    }
  }

  lemma {:induction false} StackGrowth(ps: seq<Production>, table: LalrTable, stack: seq<nat>, l: Lookahead, n: nat)
    requires Reductions(ps, table, stack, l, n).Some?
    ensures |Reductions(ps, table, stack, l, n).value| <= |stack| + n
    decreases n
  {
    if n > 0 {
      StackGrowth(ps, table, MoveOn(ps, table, stack, l).stack, l, n - 1);
    }
  }

  // ---------- What a state means ----------

  // The consumed bytes are the spelled tokens `u` followed by `v`, the part of a token read so far.
  ghost predicate StateFor(cf: Config, st: State, u: seq<Token>, k: nat, v: Word) {
    && ReachedBy(cf.compiled.productions, cf.compiled.table, st.stack, u, k)
    && TokensFor(cf.compiled.grammar, u)
    && (st.candidates == [] <==> v == [])
    && (v != [] ==> CandidatesFor(cf, st.stack, v, st.candidates))
  }

  ghost predicate CandidateFor(cf: Config, stack: seq<nat>, v: Word, c: Candidate) {
    && c.terminal < |cf.compiled.grammar.terminals|
    && Settle(cf, stack, On(c.terminal), cf.fuel) == Done(c.stack, Some(Shift(c.shift)))
    && var t := cf.compiled.grammar.terminals[c.terminal];
       Run(t, Start(t), v) == Some(c.cursor) && (v != [] ==> Terminals.IsLive(t, c.cursor))
  }

  ghost predicate Shifts(cf: Config, stack: seq<nat>, t: nat) {
    var r := Settle(cf, stack, On(t), cf.fuel);
    r.Done? && r.value.Some? && r.value.value.Shift?
  }

  ghost predicate Reads(t: CompiledTerminal, v: Word) {
    var end := Run(t, Start(t), v);
    end.Some? && (v != [] ==> Terminals.IsLive(t, end.value))
  }

  ghost predicate Competes(cf: Config, stack: seq<nat>, v: Word, t: nat) {
    t < |cf.compiled.grammar.terminals| && Shifts(cf, stack, t) && Reads(cf.compiled.grammar.terminals[t], v)
  }

  // One candidate per terminal that competes, and no other; every lookahead settled when they were started.
  ghost predicate CandidatesFor(cf: Config, stack: seq<nat>, v: Word, candidates: seq<Candidate>) {
    && (forall t: nat :: t < |cf.compiled.grammar.terminals| ==> Settle(cf, stack, On(t), cf.fuel).Done?)
    && (forall c <- candidates :: CandidateFor(cf, stack, v, c))
    && (forall t: nat :: Competes(cf, stack, v, t) ==> exists c :: c in candidates && c.terminal == t)
    && (forall i, j :: 0 <= i < j < |candidates| ==> candidates[i].terminal != candidates[j].terminal)
  }

  lemma {:induction false} CandidatesStart(cf: Config, stack: seq<nat>, t: nat, found: seq<Candidate>)
    requires t <= |cf.compiled.grammar.terminals|
    requires forall s: nat :: s < t ==> Settle(cf, stack, On(s), cf.fuel).Done?
    requires forall c <- found :: CandidateFor(cf, stack, [], c) && c.terminal < t
    requires forall s: nat :: s < t && Competes(cf, stack, [], s) ==> exists c :: c in found && c.terminal == s
    requires forall i, j :: 0 <= i < j < |found| ==> found[i].terminal != found[j].terminal
    ensures var r := Candidates(cf, stack, t, found); r.Done? ==> CandidatesFor(cf, stack, [], r.value)
    decreases |cf.compiled.grammar.terminals| - t
  {
    hide Settle, Terminals.IsLive;
    if t < |cf.compiled.grammar.terminals| {
      match Settle(cf, stack, On(t), cf.fuel)
      case Done(settled, Some(Shift(q))) =>
        var c := Candidate(t, Start(cf.compiled.grammar.terminals[t]), settled, q);
        var more := found + [c];
        forall s: nat | s < t + 1 && Competes(cf, stack, [], s) ensures exists d :: d in more && d.terminal == s {
          if s < t {
            var d :| d in found && d.terminal == s;
            assert d in more;
          } else {
            assert c in more;
          }
        }
        CandidatesStart(cf, stack, t + 1, more);
      case Done(_, _) => CandidatesStart(cf, stack, t + 1, found);
      case Failed(_, _) =>
    }
  }

  // ---------- One byte of a token ----------

  ghost predicate StepsToAccepting(cf: Config, c: Candidate, byte: Byte, d: Candidate) {
    && Step(cf, c, byte) == Some(d) && d.terminal < |cf.compiled.grammar.terminals|
    && Terminals.IsAccepting(cf.compiled.grammar.terminals[d.terminal], d.cursor)
  }

  ghost predicate StepsToLive(cf: Config, c: Candidate, byte: Byte, d: Candidate) {
    && Step(cf, c, byte) == Some(d) && d.terminal < |cf.compiled.grammar.terminals|
    && Terminals.IsLive(cf.compiled.grammar.terminals[d.terminal], d.cursor)
  }

  lemma {:induction false} StepAllExact(cf: Config, candidates: seq<Candidate>, byte: Byte)
    ensures var (accepted, live) := StepAll(cf, candidates, byte);
            && (forall d :: d in accepted <==> exists c :: c in candidates && StepsToAccepting(cf, c, byte, d))
            && (forall d :: d in live <==> exists c :: c in candidates && StepsToLive(cf, c, byte, d))
    decreases |candidates|
  {
    if candidates != [] {
      var front, last := candidates[..|candidates| - 1], candidates[|candidates| - 1];
      StepAllExact(cf, front, byte);
      StepLast(cf, front, last, byte);
      assert candidates == front + [last];
      assert forall c :: c in candidates <==> c in front || c == last;
      hide StepAll, StepsToAccepting, StepsToLive;
    }
  }

  lemma StepLast(cf: Config, front: seq<Candidate>, last: Candidate, byte: Byte)
    ensures var before, after := StepAll(cf, front, byte), StepAll(cf, front + [last], byte);
            && (forall d :: d in after.0 <==> d in before.0 || StepsToAccepting(cf, last, byte, d))
            && (forall d :: d in after.1 <==> d in before.1 || StepsToLive(cf, last, byte, d))
  {
    hide Step, Terminals.IsAccepting, Terminals.IsLive;
    assert (front + [last])[..|front|] == front;
    StepKnown(cf, last, byte);
  }

  lemma StepKnown(cf: Config, c: Candidate, byte: Byte)
    ensures Step(cf, c, byte).Some? ==> Step(cf, c, byte).value.terminal < |cf.compiled.grammar.terminals|
  {
  }

  ghost predicate TerminalsDistinct(cs: seq<Candidate>) {
    forall i, j :: 0 <= i < j < |cs| ==> cs[i].terminal != cs[j].terminal
  }

  lemma DistinctMore(cs: seq<Candidate>, d: Candidate)
    requires TerminalsDistinct(cs) && forall c :: c in cs ==> c.terminal != d.terminal
    ensures TerminalsDistinct(cs + [d])
  {
  }

  lemma StepAllLast(cf: Config, candidates: seq<Candidate>, byte: Byte)
    requires candidates != []
    ensures var front, last := candidates[..|candidates| - 1], candidates[|candidates| - 1];
            var before, after := StepAll(cf, front, byte), StepAll(cf, candidates, byte);
            && (after.0 == before.0
               || (Step(cf, last, byte).Some? && after.0 == before.0 + [Step(cf, last, byte).value]))
            && (after.1 == before.1
               || (Step(cf, last, byte).Some? && after.1 == before.1 + [Step(cf, last, byte).value]))
  {
  }

  lemma StepTerminal(cf: Config, c: Candidate, byte: Byte)
    ensures Step(cf, c, byte).Some? ==> Step(cf, c, byte).value.terminal == c.terminal
  {
  }

  lemma {:induction false} StepAllTerminals(cf: Config, candidates: seq<Candidate>, byte: Byte)
    ensures forall d :: d in StepAll(cf, candidates, byte).0 || d in StepAll(cf, candidates, byte).1 ==>
              exists c :: c in candidates && c.terminal == d.terminal
    decreases |candidates|
  {
    if candidates != [] {
      var front, last := candidates[..|candidates| - 1], candidates[|candidates| - 1];
      StepAllTerminals(cf, front, byte);
      StepAllLast(cf, candidates, byte);
      StepTerminal(cf, last, byte);
      hide *;
      assert forall c :: c in candidates <==> c in front || c == last;
    }
  }

  lemma {:induction false} StepAllDistinct(cf: Config, candidates: seq<Candidate>, byte: Byte)
    requires TerminalsDistinct(candidates)
    ensures TerminalsDistinct(StepAll(cf, candidates, byte).0) && TerminalsDistinct(StepAll(cf, candidates, byte).1)
    decreases |candidates|
  {
    if candidates != [] {
      var front, last := candidates[..|candidates| - 1], candidates[|candidates| - 1];
      assert forall c :: c in front ==> c.terminal != last.terminal;
      assert TerminalsDistinct(front);
      hide *;
      StepAllDistinct(cf, front, byte);
      StepAllTerminals(cf, front, byte);
      StepAllLast(cf, candidates, byte);
      StepTerminal(cf, last, byte);
      if Step(cf, last, byte).Some? {
        var d := Step(cf, last, byte).value;
        DistinctMore(StepAll(cf, front, byte).0, d);
        DistinctMore(StepAll(cf, front, byte).1, d);
      }
    }
  }

  // An accepting candidate has read a whole word of its terminal.
  lemma AcceptedWord(cf: Config, stack: seq<nat>, v: Word, byte: Byte, c: Candidate, d: Candidate)
    requires CandidateFor(cf, stack, v, c) && Step(cf, c, byte) == Some(d)
    ensures d.terminal == c.terminal && d.stack == c.stack && d.shift == c.shift
    ensures var t := cf.compiled.grammar.terminals[c.terminal];
            Run(t, Start(t), v + [byte]) == Some(d.cursor)
            && (Terminals.IsAccepting(t, d.cursor) ==> Matches(t, v + [byte]))
  {
    var t := cf.compiled.grammar.terminals[c.terminal];
    RunOneMore(t, Start(t), v, byte);
  }

  // Committing moves the stack over the token.
  lemma CommitReaches(cf: Config, first: seq<set<nat>>, a: Automaton, stack: seq<nat>, u: seq<Token>, k: nat,
      token: Token, settled: seq<nat>, q: nat) returns (k': nat)
    requires Ready(cf, first, a) && ReachedBy(cf.compiled.productions, cf.compiled.table, stack, u, k)
    requires Settle(cf, stack, On(token.terminal), cf.fuel) == Done(settled, Some(Shift(q)))
    ensures ReachedBy(cf.compiled.productions, cf.compiled.table, settled + [q], u + [token], k')
  {
    var ps, table := cf.compiled.productions, cf.compiled.table;
    var l := On(token.terminal);
    hide Ready;
    var n := SettleReduces(cf, stack, l, cf.fuel);
    k' := k + (n + 1);
    MovesAreReductions(ps, table, stack, l, n);
    forall b ensures Moves(ps, table, [0], u + [token], b, k') == Some((settled + [q], [])) {
      assert Ahead([token], b) == l;
      RunThen(ps, table, [0], u, [token], b, k);
      RunThen(ps, table, stack, [], [token], b, n);
      assert [] + [token] == [token];
      assert Moves(ps, table, stack, [token], b, n) == Some((settled, [token]));
      assert [token][1..] == [];
      assert Moves(ps, table, settled + [q], [], b, 0) == Some((settled + [q], []));
      assert MoveOn(ps, table, settled, l) == Shifted(settled + [q]);
      assert Moves(ps, table, settled, [token], b, 1) == Some((settled + [q], []));
      RunAdd(ps, table, stack, [token], b, n, 1);
      RunAdd(ps, table, [0], u + [token], b, k, n + 1);
    }
  }

  // ---------- From byte to byte ----------

  // The candidates a byte is offered to.
  function Offered(cf: Config, st: State): Outcome<(), seq<Candidate>> {
    if st.candidates == [] then StartCandidates(cf, st.stack) else Done((), st.candidates)
  }

  lemma OfferedExact(cf: Config, st: State, u: seq<Token>, k: nat, v: Word)
    requires StateFor(cf, st, u, k, v)
    ensures Offered(cf, st).Done? ==> CandidatesFor(cf, st.stack, v, Offered(cf, st).value)
  {
    if st.candidates == [] {
      CandidatesStart(cf, st.stack, 0, []);
    }
  }

  // A cursor that stays live after one more byte was live before.
  lemma LiveBefore(t: CompiledTerminal, v: Word, byte: Byte)
    requires WellFormedTerminal(t) && v != [] && Run(t, Start(t), v + [byte]).Some?
    requires Terminals.IsLive(t, Run(t, Start(t), v + [byte]).value)
             || Terminals.IsAccepting(t, Run(t, Start(t), v + [byte]).value)
    ensures Run(t, Start(t), v).Some? && Terminals.IsLive(t, Run(t, Start(t), v).value)
  {
    RunOneMore(t, Start(t), v, byte);
    var before := Run(t, Start(t), v).value;
    var after := Run(t, Start(t), v + [byte]).value;
    var more: Word := [];
    if !Terminals.IsAccepting(t, after) {
      more := LiveMeansExtensible(t, after);
    }
    assert Run(t, before, [byte] + more) == Run(t, after, more);
    ExtensibleMeansLive(t, before, [byte] + more);
  }

  // The candidates that stay live compete for the longer part of a token.
  lemma LiveCandidates(cf: Config, stack: seq<nat>, v: Word, byte: Byte, candidates: seq<Candidate>)
    requires WellFormed(cf.compiled.grammar) && CandidatesFor(cf, stack, v, candidates)
    ensures CandidatesFor(cf, stack, v + [byte], StepAll(cf, candidates, byte).1)
  {
    var live := StepAll(cf, candidates, byte).1;
    StepAllExact(cf, candidates, byte);
    StepAllDistinct(cf, candidates, byte);
    hide StepAll, WellFormed;
    forall d <- live ensures CandidateFor(cf, stack, v + [byte], d) {
      var c :| c in candidates && Step(cf, c, byte) == Some(d);
      AcceptedWord(cf, stack, v, byte, c, d);
    }
    forall t: nat | Competes(cf, stack, v + [byte], t) ensures exists d :: d in live && d.terminal == t {
      var d := CompetitorSteps(cf, stack, v, byte, candidates, t);
    }
  }

  // A terminal that can read on has a candidate, and stepping it gives the terminal's cursor.
  lemma CompetitorSteps(cf: Config, stack: seq<nat>, v: Word, byte: Byte, candidates: seq<Candidate>, t: nat)
      returns (d: Candidate)
    requires WellFormed(cf.compiled.grammar) && CandidatesFor(cf, stack, v, candidates)
    requires t < |cf.compiled.grammar.terminals| && Shifts(cf, stack, t)
    requires var terminal := cf.compiled.grammar.terminals[t];
             var end := Run(terminal, Start(terminal), v + [byte]);
             end.Some? && (Terminals.IsLive(terminal, end.value) || Terminals.IsAccepting(terminal, end.value))
    ensures d.terminal == t && CandidateStep(cf, stack, candidates, v, byte, d)
    ensures var terminal := cf.compiled.grammar.terminals[t];
            (Terminals.IsLive(terminal, d.cursor) ==> d in StepAll(cf, candidates, byte).1)
            && (Terminals.IsAccepting(terminal, d.cursor) ==> d in StepAll(cf, candidates, byte).0)
  {
    var terminal := cf.compiled.grammar.terminals[t];
    assert terminal in cf.compiled.grammar.terminals && WellFormedTerminal(terminal);
    RunOneMore(terminal, Start(terminal), v, byte);
    if v != [] {
      LiveBefore(terminal, v, byte);
    }
    assert Competes(cf, stack, v, t);
    var c :| c in candidates && c.terminal == t;
    d := Step(cf, c, byte).value;
    StepAllExact(cf, candidates, byte);
  }

  // `d` is a candidate moved by `byte` to its terminal's cursor.
  ghost predicate CandidateStep(cf: Config, stack: seq<nat>, candidates: seq<Candidate>, v: Word, byte: Byte,
      d: Candidate)
  {
    && d.terminal < |cf.compiled.grammar.terminals|
    && Settle(cf, stack, On(d.terminal), cf.fuel) == Done(d.stack, Some(Shift(d.shift)))
    && var t := cf.compiled.grammar.terminals[d.terminal];
       Run(t, Start(t), v + [byte]) == Some(d.cursor)
  }

  lemma AcceptedFacts(cf: Config, stack: seq<nat>, v: Word, byte: Byte, candidates: seq<Candidate>, d: Candidate)
    requires CandidatesFor(cf, stack, v, candidates) && d in StepAll(cf, candidates, byte).0
    ensures d.terminal < |cf.compiled.grammar.terminals|
    ensures Matches(cf.compiled.grammar.terminals[d.terminal], v + [byte])
    ensures Settle(cf, stack, On(d.terminal), cf.fuel) == Done(d.stack, Some(Shift(d.shift)))
  {
    StepAllExact(cf, candidates, byte);
    var c :| c in candidates && Step(cf, c, byte) == Some(d);
    AcceptedWord(cf, stack, v, byte, c, d);
  }

  // Lexical safety: at most one candidate accepts, so the "accepted multiple terminals" error cannot occur.
  lemma AtMostOneAccepts(cf: Config, first: seq<set<nat>>, a: Automaton, stack: seq<nat>, v: Word, byte: Byte,
      candidates: seq<Candidate>)
    requires Ready(cf, first, a) && CandidatesFor(cf, stack, v, candidates)
    ensures |StepAll(cf, candidates, byte).0| <= 1
  {
    hide *;
    ReadyFacts(cf, first, a);
    CandidatesDistinct(cf, stack, v, candidates);
    StepAllDistinct(cf, candidates, byte);
    var accepted := StepAll(cf, candidates, byte).0;
    if |accepted| > 1 {
      var d, e := accepted[0], accepted[1];
      assert d in accepted && e in accepted;
      AcceptedFacts(cf, stack, v, byte, candidates, d);
      AcceptedFacts(cf, stack, v, byte, candidates, e);
      SameTerminal(cf.compiled.grammar, d.terminal, e.terminal, v + [byte]);
      DistinctPair(accepted);
    }
  }

  lemma CandidatesDistinct(cf: Config, stack: seq<nat>, v: Word, candidates: seq<Candidate>)
    requires CandidatesFor(cf, stack, v, candidates)
    ensures TerminalsDistinct(candidates)
  {
  }

  lemma DistinctPair(cs: seq<Candidate>)
    requires TerminalsDistinct(cs) && |cs| > 1
    ensures cs[0].terminal != cs[1].terminal
  {
  }

  lemma SameTerminal(g: ResidualGrammar, s: nat, t: nat, w: Word)
    requires WellFormed(g) && LexicalSafety.Safe(g.terminals) && s < |g.terminals| && t < |g.terminals|
    requires Matches(g.terminals[s], w) && Matches(g.terminals[t], w)
    ensures s == t
  {
    assert g.terminals[s] in g.terminals && g.terminals[t] in g.terminals;
    assert w + [] == w;
    LexicalSafety.CommitIsForced(g.terminals, s, t, w, []);
  }

  // What a state means after one more byte.
  ghost predicate Continues(cf: Config, st: State, u: seq<Token>, v: Word, byte: Byte, next: seq<Token>, k: nat,
      part: Word)
  {
    && StateFor(cf, st, next, k, part)
    && ((next == u && part == v + [byte])
        || (part == [] && exists t :: next == u + [Token(t, v + [byte])]))
  }

  // A successful byte extends the token being read or completes it.
  lemma AdvanceByteContinues(cf: Config, first: seq<set<nat>>, a: Automaton, st: State, u: seq<Token>, k: nat, v: Word,
      byte: Byte)
    returns (next: seq<Token>, k': nat, part: Word)
    requires Ready(cf, first, a) && StateFor(cf, st, u, k, v)
    requires AdvanceByte(cf, st, byte) == Done(AdvanceByte(cf, st, byte).state, true)
    ensures Continues(cf, AdvanceByte(cf, st, byte).state, u, v, byte, next, k', part)
  {
    hide *;
    ReadyFacts(cf, first, a);
    OfferedExact(cf, st, u, k, v);
    AdvanceByteCases(cf, st, byte);
    var candidates := Offered(cf, st).value;
    AtMostOneAccepts(cf, first, a, st.stack, v, byte, candidates);
    var (accepted, live) := StepAll(cf, candidates, byte);
    var r := AdvanceByte(cf, st, byte);
    StateFacts(cf, st, u, k, v);
    if |accepted| == 1 {
      var d := accepted[0];
      AcceptedFacts(cf, st.stack, v, byte, candidates, d);
      var token := Token(d.terminal, v + [byte]);
      k' := CommitReaches(cf, first, a, st.stack, u, k, token, d.stack, d.shift);
      next, part := u + [token], [];
      BoundaryState(cf, r.state, u, token, k');
      ContinuesCommitted(cf, r.state, u, v, byte, token, k');
    } else {
      next, k', part := u, k, v + [byte];
      LiveCandidates(cf, st.stack, v, byte, candidates);
      TokenState(cf, st, r.state, u, k, v, byte, live);
    }
  }

  // The three ways a byte can go when no error is reported.
  lemma AdvanceByteCases(cf: Config, st: State, byte: Byte)
    requires AdvanceByte(cf, st, byte).Done?
    ensures Offered(cf, st).Done?
    ensures var (accepted, live) := StepAll(cf, Offered(cf, st).value, byte);
            var r := AdvanceByte(cf, st, byte);
            && |accepted| <= 1
            && (r.value <==> accepted != [] || live != [])
            && (|accepted| == 1 ==> r.state.stack == accepted[0].stack + [accepted[0].shift] && r.state.candidates == []
                                    && accepted[0] in accepted)
            && (|accepted| == 0 ==> r.state.stack == st.stack && r.state.candidates == live)
  {
  }

  lemma StateFacts(cf: Config, st: State, u: seq<Token>, k: nat, v: Word)
    requires StateFor(cf, st, u, k, v)
    ensures ReachedBy(cf.compiled.productions, cf.compiled.table, st.stack, u, k) && TokensFor(cf.compiled.grammar, u)
    ensures st.candidates == [] <==> v == []
    ensures v != [] ==> CandidatesFor(cf, st.stack, v, st.candidates)
  {
  }

  lemma BoundaryState(cf: Config, st: State, u: seq<Token>, token: Token, k: nat)
    requires ReachedBy(cf.compiled.productions, cf.compiled.table, st.stack, u + [token], k) && st.candidates == []
    requires TokensFor(cf.compiled.grammar, u) && token.terminal < |cf.compiled.grammar.terminals|
    requires Matches(cf.compiled.grammar.terminals[token.terminal], token.word)
    ensures StateFor(cf, st, u + [token], k, [])
  {
  }

  lemma ContinuesCommitted(cf: Config, st: State, u: seq<Token>, v: Word, byte: Byte, token: Token, k: nat)
    requires StateFor(cf, st, u + [token], k, []) && token.word == v + [byte]
    ensures Continues(cf, st, u, v, byte, u + [token], k, [])
  {
    assert u + [token] == u + [Token(token.terminal, v + [byte])];
  }

  lemma TokenState(cf: Config, st: State, next: State, u: seq<Token>, k: nat, v: Word, byte: Byte, live: seq<Candidate>)
    requires StateFor(cf, st, u, k, v) && next.stack == st.stack && next.candidates == live && live != []
    requires CandidatesFor(cf, st.stack, v + [byte], live)
    ensures Continues(cf, next, u, v, byte, u, k, v + [byte])
  {
  }

  // ---------- Whole inputs ----------

  // The recognizer fed `x` byte by byte; a dead recognizer stays dead.
  function Feed(cf: Config, x: Word): Outcome<State, bool>
    decreases |x|
  {
    if x == [] then
      Done(Initial(), true)
    else
      var (st, alive) :- Feed(cf, x[..|x| - 1]);
      if alive then AdvanceByte(cf, st, x[|x| - 1]) else Done(st, false)
  }

  // The bytes consumed are the tokens `u` and the part `v` of one more.
  ghost predicate Spells(cf: Config, st: State, u: seq<Token>, k: nat, v: Word, x: Word) {
    StateFor(cf, st, u, k, v) && Spell(u) + v == x
  }

  lemma InitialState(cf: Config)
    ensures Spells(cf, Initial(), [], 0, [], [])
  {
  }

  lemma SpellsMore(cf: Config, st: State, u: seq<Token>, v: Word, byte: Byte, next: seq<Token>, k: nat, part: Word,
      x: Word)
    requires Spell(u) + v == x && Continues(cf, st, u, v, byte, next, k, part)
    ensures Spells(cf, st, next, k, part, x + [byte])
  {
    if part == [] {
      var t :| next == u + [Token(t, v + [byte])];
      SpellConcat(u, [Token(t, v + [byte])]);
      assert [Token(t, v + [byte])][1..] == [];
    }
    assert Spell(u) + (v + [byte]) == x + [byte];
  }

  // Every live state knows which tokens it has read.
  lemma {:induction false} FeedSpells(cf: Config, first: seq<set<nat>>, a: Automaton, x: Word)
      returns (u: seq<Token>, k: nat, v: Word)
    requires Ready(cf, first, a) && Feed(cf, x).Done? && Feed(cf, x).value
    ensures Spells(cf, Feed(cf, x).state, u, k, v, x)
    decreases |x|
  {
    hide Ready, AdvanceByte, StateFor;
    if x == [] {
      InitialState(cf);
      u, k, v := [], 0, [];
    } else {
      var front, byte := x[..|x| - 1], x[|x| - 1];
      var r := Feed(cf, front);
      var u0, k0, v0 := FeedSpells(cf, first, a, front);
      u, k, v := AdvanceByteContinues(cf, first, a, r.state, u0, k0, v0, byte);
      SpellsMore(cf, Feed(cf, x).state, u0, v0, byte, u, k, v, front);
      assert front + [byte] == x;
    }
  }

  // ---------- Soundness of acceptance ----------

  // Accepting at a token boundary certifies a derivation of the consumed bytes.
  lemma AcceptanceSound(cf: Config, first: seq<set<nat>>, a: Automaton, st: State, u: seq<Token>, k: nat, x: Word)
    requires Ready(cf, first, a) && Spells(cf, st, u, k, [], x) && StackAccepts(cf, st)
    ensures Accepts(AsCfg(cf.compiled.grammar), x)
  {
    var g := cf.compiled.grammar;
    ReadyFacts(cf, first, a);
    hide Ready, Usable, Productive, AutomatonFor, TableSound, ReachedBy, Linked;
    var n := SettleReduces(cf, st.stack, Eof, cf.fuel);
    var s, alpha, f := ReachedSound(g, first, a, cf.compiled.table, st.stack, u, k, Eof, n);
    BottomEmpty(a, s, alpha);
    LinkedInRange(g, first, a, s, alpha, |alpha|);
    AcceptSound(g, first, a, cf.compiled.table, s, alpha, f, Eof);
    SingleForest(Augmented(g), f, Nonterminal(g.start));
    ForestSpelled(f);
    assert Spell(u) + [] == x;
    assert Generates(Augmented(g), g.start, x);
    AugmentedGenerates(g, g.start, x);
  }

  // ---------- Completeness ----------

  // The state has read a prefix of the sentence `w`, token by token as `w` is cut.
  ghost predicate OnTrack(cf: Config, st: State, w: seq<Token>, i: nat, k: nat, v: Word) {
    && i <= |w|
    && StateFor(cf, st, w[..i], k, v)
    && (v != [] ==> i < |w| && v < w[i].word)
  }

  // `w` is a sentence, cut into the tokens of a derivation of the start symbol.
  ghost predicate Sentence(g: ResidualGrammar, w: seq<Token>) {
    exists t: Tree :: TreeFor(Augmented(g), t, Nonterminal(g.start)) && Tokens(t) == w
  }

  // On a sentence's track, the next lookahead settles in a shift or, at the end, in acceptance.
  lemma TrackActs(cf: Config, first: seq<set<nat>>, a: Automaton, stack: seq<nat>, w: seq<Token>, i: nat, k: nat)
      returns (n: nat)
    requires Ready(cf, first, a) && Sentence(cf.compiled.grammar, w) && i <= |w|
    requires ReachedBy(cf.compiled.productions, cf.compiled.table, stack, w[..i], k)
    ensures ActsAfter(cf.compiled.productions, cf.compiled.table, stack, Ahead(w[i..], Eof), n)
  {
    hide *;
    ReadyFacts(cf, first, a);
    var g, ps, table := cf.compiled.grammar, cf.compiled.productions, cf.compiled.table;
    var size, end := SentenceAccepted(g, first, a, table, w);
    ReachedThen(ps, table, stack, w, i, k);
    SizeEnough(ps, table, w, k, size, stack, w[i..], end);
    n := AcceptedRunSettles(ps, table, stack, w[i..], size - k, end);
  }

  lemma SentenceAccepted(g: ResidualGrammar, first: seq<set<nat>>, a: Automaton, table: LalrTable, w: seq<Token>)
    returns (size: nat, end: seq<nat>)
    requires Usable(g, first, a, table) && Sentence(g, w)
    ensures Moves(AugmentedProductions(g), table, [0], w, Eof, size) == Some((end, []))
    ensures MoveOn(AugmentedProductions(g), table, end, Eof) == Accepting
  {
    hide Usable;
    var t: Tree :| TreeFor(Augmented(g), t, Nonterminal(g.start)) && Tokens(t) == w;
    StartDrives(g, first, a, table, t);
    size := Size(t);
    end :| Moves(AugmentedProductions(g), table, [0], w, Eof, size) == Some((end, []))
           && MoveOn(AugmentedProductions(g), table, end, Eof) == Accepting;
  }

  lemma ReachedThen(ps: seq<Production>, table: LalrTable, stack: seq<nat>, w: seq<Token>, i: nat, k: nat)
    requires i <= |w| && ReachedBy(ps, table, stack, w[..i], k)
    ensures Moves(ps, table, [0], w, Eof, k) == Some((stack, w[i..]))
  {
    RunThen(ps, table, [0], w[..i], w[i..], Eof, k);
    assert w[..i] + w[i..] == w && [] + w[i..] == w[i..];
  }

  lemma SentenceTokens(g: ResidualGrammar, w: seq<Token>, i: nat)
    requires Sentence(g, w) && i < |w|
    ensures w[i].terminal < |g.terminals| && Matches(g.terminals[w[i].terminal], w[i].word)
  {
    var t: Tree :| TreeFor(Augmented(g), t, Nonterminal(g.start)) && Tokens(t) == w;
    TreeTokens(g, t, Nonterminal(g.start));
    assert w[i] in w;
  }

  // Settling gives what the reductions end in.
  lemma SettlesAs(cf: Config, stack: seq<nat>, l: Lookahead, n: nat)
    requires Settle(cf, stack, l, cf.fuel).Done?
    requires ActsAfter(cf.compiled.productions, cf.compiled.table, stack, l, n)
    ensures var r := Settle(cf, stack, l, cf.fuel);
            && Reductions(cf.compiled.productions, cf.compiled.table, stack, l, n) == Some(r.state)
            && r.state != [] && r.value == FindAction(cf.compiled.table, r.state[|r.state| - 1], l)
            && r.value.Some? && (r.value.value.Shift? || r.value.value == Accept)
  {
    var ps, table := cf.compiled.productions, cf.compiled.table;
    var m := SettleReduces(cf, stack, l, cf.fuel);
    assert SettlesAfter(ps, table, stack, l, n);
    SettlesUnique(ps, table, stack, l, n, m);
    assert SettlesAfter(ps, table, stack, l, m);
    SettlesUnique(ps, table, stack, l, m, n);
  }

  // Only a terminal can be shifted and only the end accepted.
  lemma ActionKind(g: ResidualGrammar, first: seq<set<nat>>, a: Automaton, table: LalrTable, stack: seq<nat>,
      alpha: seq<Symbol>, f: Forest, l: Lookahead)
    requires AutomatonFor(g, first, a) && TableSound(g, a, table) && StackFor(g, a, stack, alpha, f)
    ensures var action := FindAction(table, Top(stack), l);
            && (action.Some? && action.value.Shift? ==> l.On?)
            && (action == Some(Accept) ==> l == Eof)
  {
    hide *;
    StackTop(g, first, a, stack, alpha, f);
    var m := Top(stack);
    if FindAction(table, m, l).Some? {
      ActionSource(g, a, table, m, l);
    }
  }

  lemma ActionSource(g: ResidualGrammar, a: Automaton, table: LalrTable, m: nat, l: Lookahead)
    requires TableSound(g, a, table) && m < |a.states| && FindAction(table, m, l).Some?
    ensures var action := FindAction(table, m, l).value;
            (action.Shift? ==> l.On?) && (action == Accept ==> l == Eof)
  {
    assert ActionFrom(g, a, m, l, table.actions[m][l]);
  }

  // The next token of the sentence is offered: its lookahead settles in a shift.
  lemma NextTokenShifts(cf: Config, first: seq<set<nat>>, a: Automaton, stack: seq<nat>, w: seq<Token>, i: nat, k: nat)
    requires Ready(cf, first, a) && Sentence(cf.compiled.grammar, w) && i < |w|
    requires ReachedBy(cf.compiled.productions, cf.compiled.table, stack, w[..i], k)
    requires TokensFor(cf.compiled.grammar, w[..i])
    requires Settle(cf, stack, On(w[i].terminal), cf.fuel).Done?
    ensures Shifts(cf, stack, w[i].terminal)
  {
    hide Ready, Sentence, TokensFor, ReachedBy, Usable, AutomatonFor, TableSound, Productive, StackFor;
    ReadyFacts(cf, first, a);
    var g := cf.compiled.grammar;
    var l := On(w[i].terminal);
    var n := TrackActs(cf, first, a, stack, w, i, k);
    assert Ahead(w[i..], Eof) == l;
    SettlesAs(cf, stack, l, n);
    var s, alpha, f := ReachedSound(g, first, a, cf.compiled.table, stack, w[..i], k, l, n);
    ActionKind(g, first, a, cf.compiled.table, s, alpha, f, l);
  }

  // At the end of the sentence, the end of input settles in acceptance.
  lemma SentenceEndAccepts(cf: Config, first: seq<set<nat>>, a: Automaton, st: State, w: seq<Token>, k: nat)
    requires Ready(cf, first, a) && Sentence(cf.compiled.grammar, w) && StateFor(cf, st, w, k, [])
    requires Settle(cf, st.stack, Eof, cf.fuel).Done?
    ensures StackAccepts(cf, st)
  {
    hide Ready, Sentence, TokensFor, ReachedBy, Usable, AutomatonFor, TableSound, Productive, StackFor;
    ReadyFacts(cf, first, a);
    var g := cf.compiled.grammar;
    assert w[..|w|] == w && w[|w|..] == [];
    var n := TrackActs(cf, first, a, st.stack, w, |w|, k);
    SettlesAs(cf, st.stack, Eof, n);
    var s, alpha, f := ReachedSound(g, first, a, cf.compiled.table, st.stack, w, k, Eof, n);
    ActionKind(g, first, a, cf.compiled.table, s, alpha, f, Eof);
  }

  // One byte along a sentence: never rejected, and still on its track.
  lemma TrackAdvances(cf: Config, first: seq<set<nat>>, a: Automaton, st: State, w: seq<Token>, i: nat, k: nat, v: Word)
    returns (i': nat, k': nat, v': Word)
    requires Ready(cf, first, a) && Sentence(cf.compiled.grammar, w) && OnTrack(cf, st, w, i, k, v)
    requires i < |w| && v < w[i].word
    requires AdvanceByte(cf, st, w[i].word[|v|]).Done?
    ensures AdvanceByte(cf, st, w[i].word[|v|]).value
    ensures OnTrack(cf, AdvanceByte(cf, st, w[i].word[|v|]).state, w, i', k', v')
    ensures Spell(w[..i']) + v' == Spell(w[..i]) + v + [w[i].word[|v|]]
  {
    hide *;
    ReadyFacts(cf, first, a);
    var g := cf.compiled.grammar;
    var token := w[i];
    var byte := token.word[|v|];
    var rest := token.word[|v| + 1..];
    assert token.word == v + [byte] + rest;
    TrackFacts(cf, st, w, i, k, v);
    StateFacts(cf, st, w[..i], k, v);
    SentenceTokens(g, w, i);
    AdvanceByteCases(cf, st, byte);
    OfferedExact(cf, st, w[..i], k, v);
    var candidates := Offered(cf, st).value;
    SettledFor(cf, st.stack, v, candidates, token.terminal);
    NextTokenShifts(cf, first, a, st.stack, w, i, k);
    WordPrefix(g, token, v, byte, rest);
    var d := CompetitorSteps(cf, st.stack, v, byte, candidates, token.terminal);
    CandidateStepFacts(cf, st.stack, candidates, v, byte, d);
    var (accepted, live) := StepAll(cf, candidates, byte);
    var r := AdvanceByte(cf, st, byte);
    if accepted != [] {
      AcceptedFacts(cf, st.stack, v, byte, candidates, accepted[0]);
      ForcedCommit(g, accepted[0].terminal, token, v, byte, rest);
      assert rest == [] && accepted[0].terminal == token.terminal;
      assert token == Token(accepted[0].terminal, v + [byte]);
      i', v' := i + 1, [];
      k' := CommitReaches(cf, first, a, st.stack, w[..i], k, token, accepted[0].stack, accepted[0].shift);
      assert w[..i] + [token] == w[..i + 1];
      BoundaryState(cf, r.state, w[..i], token, k');
      BoundaryTrack(cf, r.state, w, i + 1, k');
      SpellLast(w, i);
    } else {
      i', k', v' := i, k, v + [byte];
      LiveCandidates(cf, st.stack, v, byte, candidates);
      TokenState(cf, st, r.state, w[..i], k, v, byte, live);
      TokenTrack(cf, r.state, w, i, k, v, byte, rest);
    }
  }

  lemma TrackFacts(cf: Config, st: State, w: seq<Token>, i: nat, k: nat, v: Word)
    requires OnTrack(cf, st, w, i, k, v)
    ensures i <= |w| && StateFor(cf, st, w[..i], k, v)
  {
  }

  lemma SettledFor(cf: Config, stack: seq<nat>, v: Word, candidates: seq<Candidate>, t: nat)
    requires CandidatesFor(cf, stack, v, candidates) && t < |cf.compiled.grammar.terminals|
    ensures Settle(cf, stack, On(t), cf.fuel).Done?
  {
  }

  // Every prefix of a token's word can be read; a proper one leaves the cursor live.
  lemma WordPrefix(g: ResidualGrammar, token: Token, v: Word, byte: Byte, rest: Word)
    requires WellFormed(g) && token.terminal < |g.terminals| && Matches(g.terminals[token.terminal], token.word)
    requires token.word == v + [byte] + rest
    ensures var t := g.terminals[token.terminal];
            var end := Run(t, Start(t), v + [byte]);
            end.Some? && (if rest == [] then Terminals.IsAccepting(t, end.value) else Terminals.IsLive(t, end.value))
  {
    var t := g.terminals[token.terminal];
    assert t in g.terminals && WellFormedTerminal(t);
    RunAppend(t, Start(t), v + [byte], rest);
    if rest != [] {
      ExtensibleMeansLive(t, Run(t, Start(t), v + [byte]).value, rest);
    } else {
      assert v + [byte] + [] == v + [byte];
    }
  }

  lemma CandidateStepFacts(cf: Config, stack: seq<nat>, candidates: seq<Candidate>, v: Word, byte: Byte, d: Candidate)
    requires CandidateStep(cf, stack, candidates, v, byte, d)
    ensures d.terminal < |cf.compiled.grammar.terminals|
    ensures Run(cf.compiled.grammar.terminals[d.terminal], Start(cf.compiled.grammar.terminals[d.terminal]),
            v + [byte]) == Some(d.cursor)
  {
  }

  // Lexical safety makes the commit the sentence's own cut.
  lemma ForcedCommit(g: ResidualGrammar, s: nat, token: Token, v: Word, byte: Byte, rest: Word)
    requires WellFormed(g) && LexicalSafety.Safe(g.terminals) && s < |g.terminals| && token.terminal < |g.terminals|
    requires Matches(g.terminals[s], v + [byte]) && Matches(g.terminals[token.terminal], token.word)
    requires token.word == v + [byte] + rest
    ensures s == token.terminal && rest == []
  {
    assert g.terminals[s] in g.terminals && g.terminals[token.terminal] in g.terminals;
    LexicalSafety.CommitIsForced(g.terminals, s, token.terminal, v + [byte], rest);
  }

  lemma BoundaryTrack(cf: Config, st: State, w: seq<Token>, i: nat, k: nat)
    requires i <= |w| && StateFor(cf, st, w[..i], k, [])
    ensures OnTrack(cf, st, w, i, k, [])
  {
  }

  lemma TokenTrack(cf: Config, st: State, w: seq<Token>, i: nat, k: nat, v: Word, byte: Byte, rest: Word)
    requires i < |w| && w[i].word == v + [byte] + rest && Continues(cf, st, w[..i], v, byte, w[..i], k, v + [byte])
    requires rest != []
    ensures OnTrack(cf, st, w, i, k, v + [byte])
    ensures Spell(w[..i]) + (v + [byte]) == Spell(w[..i]) + v + [byte]
  {
  }

  lemma SpellLast(w: seq<Token>, i: nat)
    requires i < |w|
    ensures Spell(w[..i + 1]) == Spell(w[..i]) + w[i].word
  {
    assert w[..i + 1] == w[..i] + [w[i]];
    SpellConcat(w[..i], [w[i]]);
    assert [w[i]][1..] == [] && w[i].word + [] == w[i].word;
  }

  // Feeding a prefix of a sentence never rejects, and ends on the sentence's track.
  lemma {:induction false} FeedTracks(cf: Config, first: seq<set<nat>>, a: Automaton, w: seq<Token>, x: Word)
      returns (i: nat, k: nat, v: Word)
    requires Ready(cf, first, a) && Sentence(cf.compiled.grammar, w) && x <= Spell(w)
    requires Feed(cf, x).Done?
    ensures Feed(cf, x).value && OnTrack(cf, Feed(cf, x).state, w, i, k, v) && Spell(w[..i]) + v == x
    decreases |x|
  {
    hide *;
    if x == [] {
      i, k, v := 0, 0, [];
      EmptyTracks(cf, w);
    } else {
      var front, byte := x[..|x| - 1], x[|x| - 1];
      FeedUnfold(cf, x);
      PrefixShorter(x, Spell(w));
      var i0, k0, v0 := FeedTracks(cf, first, a, w, front);
      ReadyFacts(cf, first, a);
      TrackWithin(cf, Feed(cf, front).state, w, i0, k0, v0, front);
      NextByte(w, i0, v0, x);
      i, k, v := TrackAdvances(cf, first, a, Feed(cf, front).state, w, i0, k0, v0);
      assert front + [byte] == x;
    }
  }

  lemma EmptyTracks(cf: Config, w: seq<Token>)
    ensures Feed(cf, []) == Done(Initial(), true) && OnTrack(cf, Initial(), w, 0, 0, []) && Spell(w[..0]) + [] == []
  {
    InitialState(cf);
    assert w[..0] == [];
    BoundaryTrack(cf, Initial(), w, 0, 0);
  }

  lemma FeedUnfold(cf: Config, x: Word)
    requires x != [] && Feed(cf, x).Done?
    ensures Feed(cf, x[..|x| - 1]).Done?
    ensures var r := Feed(cf, x[..|x| - 1]);
            Feed(cf, x) == if r.value then AdvanceByte(cf, r.state, x[|x| - 1]) else Done(r.state, false)
  {
  }

  lemma PrefixShorter(x: Word, z: Word)
    requires x != [] && x <= z
    ensures x[..|x| - 1] <= z && |x[..|x| - 1]| < |z|
  {
  }

  // Short of the sentence's end there is a token left to read.
  lemma TrackWithin(cf: Config, st: State, w: seq<Token>, i: nat, k: nat, v: Word, x: Word)
    requires OnTrack(cf, st, w, i, k, v) && Spell(w[..i]) + v == x && |x| < |Spell(w)|
    requires Sentence(cf.compiled.grammar, w) && WellFormed(cf.compiled.grammar)
    ensures i < |w| && v < w[i].word
  {
    WholePrefix(w, i);
    if i < |w| {
      TokenNonempty(cf.compiled.grammar, w, i);
    }
  }

  lemma WholePrefix(w: seq<Token>, i: nat)
    requires i <= |w|
    ensures i == |w| ==> w[..i] == w
  {
  }

  lemma TokenNonempty(g: ResidualGrammar, w: seq<Token>, i: nat)
    requires WellFormed(g) && Sentence(g, w) && i < |w|
    ensures w[i].word != []
  {
    SentenceTokens(g, w, i);
    assert g.terminals[w[i].terminal] in g.terminals;
  }

  lemma {:induction false} SpellSplit(w: seq<Token>, i: nat)
    requires i < |w|
    ensures Spell(w) == Spell(w[..i]) + w[i].word + Spell(w[i + 1..])
  {
    SpellConcat(w[..i + 1], w[i + 1..]);
    assert w[..i + 1] + w[i + 1..] == w;
    SpellLast(w, i);
  }

  lemma NextByte(w: seq<Token>, i: nat, v: Word, x: Word)
    requires i < |w| && v < w[i].word && x != [] && x <= Spell(w) && Spell(w[..i]) + v == x[..|x| - 1]
    ensures x[|x| - 1] == w[i].word[|v|]
  {
    SpellSplit(w, i);
    var n := |Spell(w[..i])|;
    assert |x| - 1 == n + |v|;
    assert Spell(w)[n + |v|] == w[i].word[|v|];
  }

  // A word of the grammar is the spelling of a sentence, and conversely.
  lemma SentenceFor(g: ResidualGrammar, z: Word) returns (w: seq<Token>)
    requires InRange(g) && Accepts(AsCfg(g), z)
    ensures Sentence(g, w) && Spell(w) == z
  {
    AugmentedGenerates(g, g.start, z);
    var t: Tree :| TreeFor(Augmented(g), t, Nonterminal(g.start)) && Yield(t) == z;
    TreeSpelled(t);
    w := Tokens(t);
  }

  lemma SentenceAccepts(g: ResidualGrammar, w: seq<Token>)
    requires InRange(g) && Sentence(g, w)
    ensures Accepts(AsCfg(g), Spell(w))
  {
    var t: Tree :| TreeFor(Augmented(g), t, Nonterminal(g.start)) && Tokens(t) == w;
    TreeSpelled(t);
    AugmentedGenerates(g, g.start, Spell(w));
  }

  // ---------- Main results ----------

  // Completeness: no prefix of a derivable byte string is ever rejected, and at its end the recognizer accepts.
  lemma LalrComplete(cf: Config, first: seq<set<nat>>, a: Automaton, z: Word, n: nat)
    requires Ready(cf, first, a) && Accepts(AsCfg(cf.compiled.grammar), z) && n <= |z|
    ensures Feed(cf, z[..n]).Done? ==> Feed(cf, z[..n]).value
    ensures Feed(cf, z).Done? && Settle(cf, Feed(cf, z).state.stack, Eof, cf.fuel).Done? ==>
              StackAccepts(cf, Feed(cf, z).state)
  {
    ReadyFacts(cf, first, a);
    hide Ready, Usable, AutomatonFor, TableSound, Productive, Sentence, OnTrack;
    var g := cf.compiled.grammar;
    var w := SentenceFor(g, z);
    if Feed(cf, z[..n]).Done? {
      var i, k, v := FeedTracks(cf, first, a, w, z[..n]);
    }
    if Feed(cf, z).Done? && Settle(cf, Feed(cf, z).state.stack, Eof, cf.fuel).Done? {
      var i, k, v := FeedTracks(cf, first, a, w, z);
      TrackEnds(cf, Feed(cf, z).state, w, i, k, v);
      SentenceEndAccepts(cf, first, a, Feed(cf, z).state, w, k);
    }
  }

  lemma TrackEnds(cf: Config, st: State, w: seq<Token>, i: nat, k: nat, v: Word)
    requires OnTrack(cf, st, w, i, k, v) && Spell(w[..i]) + v == Spell(w)
    requires Sentence(cf.compiled.grammar, w) && WellFormed(cf.compiled.grammar)
    ensures i == |w| && v == [] && StateFor(cf, st, w, k, [])
  {
    WholePrefix(w, i);
    if i < |w| {
      TokenNonempty(cf.compiled.grammar, w, i);
      SpellSplit(w, i);
    }
  }

  // Soundness: what is accepted is derivable.
  lemma LalrSound(cf: Config, first: seq<set<nat>>, a: Automaton, x: Word)
    requires Ready(cf, first, a) && Feed(cf, x).Done? && Feed(cf, x).value && StackAccepts(cf, Feed(cf, x).state)
    ensures Accepts(AsCfg(cf.compiled.grammar), x)
  {
    hide Ready, Settle;
    var u, k, v := FeedSpells(cf, first, a, x);
    assert v == [];
    AcceptanceSound(cf, first, a, Feed(cf, x).state, u, k, x);
  }

  // From every boundary the tokens can go on to a sentence.
  lemma BoundarySentence(cf: Config, first: seq<set<nat>>, a: Automaton, stack: seq<nat>, u: seq<Token>, k: nat)
      returns (rest: seq<Token>)
    requires Ready(cf, first, a) && ReachedBy(cf.compiled.productions, cf.compiled.table, stack, u, k)
    requires TokensFor(cf.compiled.grammar, u)
    ensures Sentence(cf.compiled.grammar, u + rest)
  {
    ReadyFacts(cf, first, a);
    hide Ready, Usable, AutomatonFor, TableSound, Productive, StackFor, ReachedBy, TokensFor, TreeFor;
    var g := cf.compiled.grammar;
    var s, alpha, f := ReachedSound(g, first, a, cf.compiled.table, stack, u, k, Eof, 0);
    var t;
    t, rest := StackViable(g, first, a, cf.compiled.table, s, alpha, f);
  }

  lemma BoundaryExtends(cf: Config, first: seq<set<nat>>, a: Automaton, stack: seq<nat>, u: seq<Token>, k: nat)
      returns (y: Word)
    requires Ready(cf, first, a) && ReachedBy(cf.compiled.productions, cf.compiled.table, stack, u, k)
    requires TokensFor(cf.compiled.grammar, u)
    ensures Accepts(AsCfg(cf.compiled.grammar), Spell(u) + y)
  {
    ReadyFacts(cf, first, a);
    hide Ready, Usable, AutomatonFor, TableSound, Productive, StackFor, ReachedBy, TokensFor, Sentence, WellFormed;
    var rest := BoundarySentence(cf, first, a, stack, u, k);
    SpellConcat(u, rest);
    y := Spell(rest);
    InRangeFrom(cf.compiled.grammar);
    SentenceAccepts(cf.compiled.grammar, u + rest);
  }

  lemma InRangeFrom(g: ResidualGrammar)
    requires WellFormed(g)
    ensures InRange(g)
  {
  }

  // Liveness is exact up to limits: a state that has not been rejected can only fail to be live because
  // settling some lookahead, or the number of candidates, ran into a limit.
  lemma LiveUnlessLimited(cf: Config, first: seq<set<nat>>, a: Automaton, st: State, u: seq<Token>, k: nat, v: Word)
    requires Ready(cf, first, a) && StateFor(cf, st, u, k, v)
    ensures Settle(cf, st.stack, Eof, cf.fuel).Done? && StartCandidates(cf, st.stack).Done? ==> StackLives(cf, st)
  {
    hide Ready, Settle, Candidates, TokensFor, ReachedBy, Sentence, CandidatesFor;
    StateFacts(cf, st, u, k, v);
    if st.candidates == [] && Settle(cf, st.stack, Eof, cf.fuel).Done? && StartCandidates(cf, st.stack).Done? {
      var rest := BoundarySentence(cf, first, a, st.stack, u, k);
      if rest == [] {
        assert u + rest == u;
        SentenceEndAccepts(cf, first, a, st, u, k);
      } else {
        assert (u + rest)[..|u|] == u;
        CandidatesStart(cf, st.stack, 0, []);
        SomeCandidate(cf, first, a, st.stack, u + rest, |u|, k, StartCandidates(cf, st.stack).value);
      }
    }
  }

  // The next token of a sentence is among the candidates.
  lemma SomeCandidate(cf: Config, first: seq<set<nat>>, a: Automaton, stack: seq<nat>, w: seq<Token>, i: nat, k: nat,
      found: seq<Candidate>)
    requires Ready(cf, first, a) && Sentence(cf.compiled.grammar, w) && i < |w|
    requires ReachedBy(cf.compiled.productions, cf.compiled.table, stack, w[..i], k)
    requires TokensFor(cf.compiled.grammar, w[..i])
    requires CandidatesFor(cf, stack, [], found)
    ensures found != []
  {
    hide Ready, Settle, TokensFor, ReachedBy, Sentence;
    SentenceTokens(cf.compiled.grammar, w, i);
    var t := w[i].terminal;
    NextTokenShifts(cf, first, a, stack, w, i, k);
    assert Competes(cf, stack, [], t);
  }

  lemma LiveExtends(cf: Config, first: seq<set<nat>>, a: Automaton, st: State, u: seq<Token>, k: nat, v: Word, x: Word)
      returns (y: Word)
    requires Ready(cf, first, a) && Spells(cf, st, u, k, v, x)
    ensures Accepts(AsCfg(cf.compiled.grammar), x + y)
  {
    hide *;
    SpellsFacts(cf, st, u, k, v, x);
    if v == [] {
      y := BoundaryExtends(cf, first, a, st.stack, u, k);
      assert Spell(u) + [] == Spell(u);
    } else {
      var token, more, c := LiveToken(cf, first, a, st, u, k, v);
      var k' := CommitReaches(cf, first, a, st.stack, u, k, token, c.stack, c.shift);
      TokensMore(cf.compiled.grammar, u, token);
      var rest := BoundaryExtends(cf, first, a, c.stack + [c.shift], u + [token], k');
      assert (u + [token])[..|u| + 1] == u + [token] && (u + [token])[..|u|] == u;
      SpellLast(u + [token], |u|);
      y := more + rest;
      assert Spell(u) + (v + more) + rest == (Spell(u) + v) + (more + rest);
    }
  }

  lemma SpellsFacts(cf: Config, st: State, u: seq<Token>, k: nat, v: Word, x: Word)
    requires Spells(cf, st, u, k, v, x)
    ensures StateFor(cf, st, u, k, v) && Spell(u) + v == x
    ensures ReachedBy(cf.compiled.productions, cf.compiled.table, st.stack, u, k) && TokensFor(cf.compiled.grammar, u)
  {
  }

  lemma TokensMore(g: ResidualGrammar, u: seq<Token>, token: Token)
    requires TokensFor(g, u) && token.terminal < |g.terminals| && Matches(g.terminals[token.terminal], token.word)
    ensures TokensFor(g, u + [token])
  {
  }

  // A candidate that is still live can be read to the end of a token.
  lemma LiveToken(cf: Config, first: seq<set<nat>>, a: Automaton, st: State, u: seq<Token>, k: nat, v: Word)
    returns (token: Token, more: Word, c: Candidate)
    requires Ready(cf, first, a) && StateFor(cf, st, u, k, v) && v != []
    ensures token.terminal < |cf.compiled.grammar.terminals| && token.word == v + more
    ensures Matches(cf.compiled.grammar.terminals[token.terminal], token.word)
    ensures Settle(cf, st.stack, On(token.terminal), cf.fuel) == Done(c.stack, Some(Shift(c.shift)))
  {
    ReadyFacts(cf, first, a);
    hide Ready, Usable, AutomatonFor, TableSound, Productive, ReachedBy;
    c := st.candidates[0];
    assert CandidateFor(cf, st.stack, v, c);
    var t := cf.compiled.grammar.terminals[c.terminal];
    assert t in cf.compiled.grammar.terminals && WellFormedTerminal(t);
    more := LiveMeansExtensible(t, c.cursor);
    RunAppend(t, Start(t), v, more);
    token := Token(c.terminal, v + more);
  }

  // Exactness of rejection: the recognizer is alive after `x` if and only if `x` extends to a sentence.
  lemma LalrAliveExactly(cf: Config, first: seq<set<nat>>, a: Automaton, x: Word)
    requires Ready(cf, first, a) && Feed(cf, x).Done?
    ensures Feed(cf, x).value <==> exists y: Word :: Accepts(AsCfg(cf.compiled.grammar), x + y)
  {
    hide Ready;
    if Feed(cf, x).value {
      var u, k, v := FeedSpells(cf, first, a, x);
      var y := LiveExtends(cf, first, a, Feed(cf, x).state, u, k, v, x);
      assert Accepts(AsCfg(cf.compiled.grammar), x + y);
    }
    if y: Word :| Accepts(AsCfg(cf.compiled.grammar), x + y) {
      assert (x + y)[..|x|] == x;
      LalrComplete(cf, first, a, x + y, |x|);
    }
  }

  // ---------- No errors but limits ----------

  // With enough stack room and fuel for the reached stack, every lookahead settles.
  lemma SettleSucceeds(cf: Config, first: seq<set<nat>>, a: Automaton, stack: seq<nat>, u: seq<Token>, k: nat,
      l: Lookahead)
    requires Ready(cf, first, a) && ReachedBy(cf.compiled.productions, cf.compiled.table, stack, u, k)
    requires TokensFor(cf.compiled.grammar, u)
    ensures var r := Settle(cf, stack, l, cf.fuel);
            r.Failed? ==>
              || (Overrun(cf.limits, r.error) && r.error.resource == ParseStack
                  && cf.limits.maxParseStack < |stack| + ReductionBound(cf.compiled.grammar, cf.compiled.table, stack))
              || (r.error == NotSettled && cf.fuel <= ReductionBound(cf.compiled.grammar, cf.compiled.table, stack))
  {
    ReadyFacts(cf, first, a);
    hide Ready, Usable, AutomatonFor, TableSound, Productive, ReachedBy, TokensFor, StackFor, ReductionBound;
    var g := cf.compiled.grammar;
    if Settle(cf, stack, l, cf.fuel).Failed? {
      ReachedNonempty(cf, stack, u, k);
      var n, at := SettleFails(cf, stack, l, cf.fuel);
      ReductionsBounded(g, first, a, cf.compiled.table, stack, u, k, l, n);
      StackGrowth(cf.compiled.productions, cf.compiled.table, stack, l, n);
      var s, alpha, f := ReachedSound(g, first, a, cf.compiled.table, stack, u, k, l, n);
      NoFault(g, first, a, cf.compiled.table, s, alpha, f, l);
    }
  }

  lemma ReachedNonempty(cf: Config, stack: seq<nat>, u: seq<Token>, k: nat)
    requires ReachedBy(cf.compiled.productions, cf.compiled.table, stack, u, k)
    ensures stack != []
  {
    assert Moves(cf.compiled.productions, cf.compiled.table, [0], u, Eof, k) == Some((stack, []));
    MovesNonempty(cf.compiled.productions, cf.compiled.table, [0], u, Eof, k);
  }

  lemma {:induction false} MovesNonempty(ps: seq<Production>, table: LalrTable, stack: seq<nat>, u: seq<Token>,
      l: Lookahead, k: nat)
    requires stack != [] && Moves(ps, table, stack, u, l, k).Some?
    ensures Moves(ps, table, stack, u, l, k).value.0 != []
    decreases k
  {
    if k > 0 {
      match MoveOn(ps, table, stack, Ahead(u, l))
      case Reduced(next) => MovesNonempty(ps, table, next, u, l, k - 1);
      case Shifted(next) => MovesNonempty(ps, table, next, u[1..], l, k - 1);
    }
  }

  lemma {:induction false} CandidatesSucceed(cf: Config, stack: seq<nat>, t: nat, found: seq<Candidate>)
    requires t <= |cf.compiled.grammar.terminals| && |found| <= t
    ensures var r := Candidates(cf, stack, t, found);
            && (r.Done? ==> |r.value| <= |cf.compiled.grammar.terminals|)
            && (r.Failed? ==>
                  exists s :: Settle(cf, stack, On(s), cf.fuel).Failed?
                    && Settle(cf, stack, On(s), cf.fuel).error == r.error)
    decreases |cf.compiled.grammar.terminals| - t
  {
    if t < |cf.compiled.grammar.terminals| {
      match Settle(cf, stack, On(t), cf.fuel)
      case Failed(_, _) =>
      case Done(settled, Some(Shift(q))) =>
        CandidatesSucceed(cf, stack, t + 1,
          found + [Candidate(t, Start(cf.compiled.grammar.terminals[t]), settled, q)]);
      case Done(_, _) => CandidatesSucceed(cf, stack, t + 1, found);
    }
  }

  // The limits leave room for one more byte from this state.
  ghost predicate Roomy(cf: Config, st: State) {
    var bound := ReductionBound(cf.compiled.grammar, cf.compiled.table, st.stack);
    && cf.fuel > bound
    && cf.limits.maxParseStack > |st.stack| + bound
    && cf.limits.maxActiveScans >= |cf.compiled.grammar.terminals|
    && cf.limits.maxInputBytes > st.bytePosition
    && st.bytePosition + 1 < TWO_TO_THE_32
  }

  // The recognizer never reports an internal error, and in a roomy state it reports none at all: the
  // reduction loop always comes back.
  lemma AdvanceByteErrors(cf: Config, first: seq<set<nat>>, a: Automaton, st: State, u: seq<Token>, k: nat, v: Word,
      byte: Byte)
    requires Ready(cf, first, a) && StateFor(cf, st, u, k, v) && AdvanceByte(cf, st, byte).Failed?
    ensures !Roomy(cf, st)
    ensures var e := AdvanceByte(cf, st, byte).error;
            || Overrun(cf.limits, e)
            || (e == NotSettled && cf.fuel <= ReductionBound(cf.compiled.grammar, cf.compiled.table, st.stack))
  {
    hide *;
    StateFacts(cf, st, u, k, v);
    OfferedExact(cf, st, u, k, v);
    CandidatesSucceed(cf, st.stack, 0, []);
    AdvanceByteFailures(cf, st, byte);
    if Offered(cf, st).Done? {
      var candidates := Offered(cf, st).value;
      AtMostOneAccepts(cf, first, a, st.stack, v, byte, candidates);
      var accepted := StepAll(cf, candidates, byte).0;
      if accepted != [] {
        AcceptedFacts(cf, st.stack, v, byte, candidates, accepted[0]);
        SettledSize(cf, first, a, st.stack, u, k, On(accepted[0].terminal));
      }
    } else if Candidates(cf, st.stack, 0, []).Failed? {
      var s :| Settle(cf, st.stack, On(s), cf.fuel).Failed?
               && Settle(cf, st.stack, On(s), cf.fuel).error == Candidates(cf, st.stack, 0, []).error;
      SettleSucceeds(cf, first, a, st.stack, u, k, On(s));
    }
  }

  // The ways a byte can fail.
  lemma AdvanceByteFailures(cf: Config, st: State, byte: Byte)
    requires AdvanceByte(cf, st, byte).Failed?
    ensures var e := AdvanceByte(cf, st, byte).error;
            var bound := ReductionBound(cf.compiled.grammar, cf.compiled.table, st.stack);
            && (Roomy(cf, st) ==> cf.fuel > bound && cf.limits.maxParseStack > |st.stack| + bound)
            && (Offered(cf, st).Failed? && Candidates(cf, st.stack, 0, []).Done? ==>
                  Overrun(cf.limits, e)
                    && (Roomy(cf, st) ==> |Candidates(cf, st.stack, 0, []).value| > |cf.compiled.grammar.terminals|))
            && (Offered(cf, st).Failed? && Candidates(cf, st.stack, 0, []).Failed? ==>
                  (Overrun(cf.limits, e) && !Roomy(cf, st)) || e == Candidates(cf, st.stack, 0, []).error)
            && (Offered(cf, st).Done? && |StepAll(cf, Offered(cf, st).value, byte).0| == 0 ==>
               Overrun(cf.limits, e) && !Roomy(cf, st))
            && (Offered(cf, st).Done? && |StepAll(cf, Offered(cf, st).value, byte).0| == 1 ==>
                  Overrun(cf.limits, e) && (Roomy(cf, st) ==>
                    |StepAll(cf, Offered(cf, st).value, byte).0[0].stack| + 1 > cf.limits.maxParseStack))
  {
    hide ReductionBound, Settle, Candidates, StepAll;
  }

  lemma SettledSize(cf: Config, first: seq<set<nat>>, a: Automaton, stack: seq<nat>, u: seq<Token>, k: nat,
      l: Lookahead)
    requires Ready(cf, first, a) && ReachedBy(cf.compiled.productions, cf.compiled.table, stack, u, k)
    requires TokensFor(cf.compiled.grammar, u) && Settle(cf, stack, l, cf.fuel).Done?
    ensures |Settle(cf, stack, l, cf.fuel).state| <= |stack|
            + ReductionBound(cf.compiled.grammar, cf.compiled.table, stack)
  {
    ReadyFacts(cf, first, a);
    hide Ready, Usable, AutomatonFor, TableSound, Productive, ReachedBy, TokensFor, ReductionBound;
    var n := SettleReduces(cf, stack, l, cf.fuel);
    ReductionsBounded(cf.compiled.grammar, first, a, cf.compiled.table, stack, u, k, l, n);
    StackGrowth(cf.compiled.productions, cf.compiled.table, stack, l, n);
  }
}
