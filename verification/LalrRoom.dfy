/**
 What the limits leave room for, said without running the recognizer: how far reductions grow the stack under a
 lookahead, and what they end in.  With enough fuel to come back from its loops, the recognizer is live behind an input
 exactly when the limits leave a token or the end open.
 */
module LalrRoom {
  import opened Grammars
  import opened Runtime
  import opened Lalr
  import opened LalrDriver
  import opened LalrAutomaton
  import opened LalrTermination
  import opened LalrTheorems
  import opened LalrFuel
  import Terminals

  // ---------- Reductions without limits ----------

  // The `n`-th reduction leaves a stack over the limit.
  predicate Oversized(c: CompiledLalr, limits: RuntimeLimits, stack: seq<nat>, l: Lookahead, n: nat) {
    var r := Reductions(c.productions, c.table, stack, l, n);
    n > 0 && r.Some? && |r.value| > limits.maxParseStack
  }

  ghost predicate Overflows(c: CompiledLalr, limits: RuntimeLimits, stack: seq<nat>, l: Lookahead) {
    exists n: nat :: Oversized(c, limits, stack, l, n)
  }

  // After `n` reductions the table says `action`.
  predicate LeadsTo(c: CompiledLalr, stack: seq<nat>, l: Lookahead, n: nat, action: Action) {
    var r := Reductions(c.productions, c.table, stack, l, n);
    r.Some? && r.value != [] && FindAction(c.table, r.value[|r.value| - 1], l) == Some(action)
  }

  ghost predicate CanShift(c: CompiledLalr, stack: seq<nat>, t: nat) {
    exists n: nat, q: nat :: LeadsTo(c, stack, On(t), n, Shift(q))
  }

  ghost predicate CanEnd(c: CompiledLalr, stack: seq<nat>) {
    exists n: nat :: LeadsTo(c, stack, Eof, n, Accept)
  }

  // How many of the terminals from `t` on can come next.
  ghost function ShiftCount(c: CompiledLalr, stack: seq<nat>, t: nat): nat
    decreases |c.grammar.terminals| - t
  {
    if t >= |c.grammar.terminals| then 0
    else (if CanShift(c, stack, t) then 1 else 0) + ShiftCount(c, stack, t + 1)
  }

  // ---------- What the limits shut ----------

  // Some lookahead overflows the stack, or too many terminals can come next.
  ghost predicate TokensShut(c: CompiledLalr, limits: RuntimeLimits, stack: seq<nat>) {
    || (exists t: nat :: t < |c.grammar.terminals| && Overflows(c, limits, stack, On(t)))
    || ShiftCount(c, stack, 0) > limits.maxActiveScans
  }

  ghost predicate EndShut(c: CompiledLalr, limits: RuntimeLimits, stack: seq<nat>) {
    !CanEnd(c, stack) || Overflows(c, limits, stack, Eof)
  }

  // At a token boundary, neither a token nor the end is open.
  ghost predicate Tight(c: CompiledLalr, limits: RuntimeLimits, st: State) {
    && st.candidates == [] && EndShut(c, limits, st.stack)
    && (TokensShut(c, limits, st.stack) || ShiftCount(c, st.stack, 0) == 0)
  }

  // ---------- The reduction loop ----------

  lemma {:induction false} SettledFits(cf: Config, stack: seq<nat>, l: Lookahead, fuel: nat, n: nat)
    requires Settle(cf, stack, l, fuel).Done?
    ensures !Oversized(cf.compiled, cf.limits, stack, l, n)
    decreases n
  {
    if n > 0 {
      match MoveOn(cf.compiled.productions, cf.compiled.table, stack, l)
      case Reduced(next) =>
        SettledFits(cf, next, l, fuel - 1, n - 1);
        assert Reductions(cf.compiled.productions, cf.compiled.table, next, l, 0) == Some(next);
      case _ =>
    }
  }

  lemma {:induction false} FailureOverflows(cf: Config, stack: seq<nat>, l: Lookahead, fuel: nat)
    requires Settle(cf, stack, l, fuel).Failed? && Settle(cf, stack, l, fuel).error.LimitExceeded?
    ensures Overflows(cf.compiled, cf.limits, stack, l)
    decreases fuel
  {
    var p := FindAction(cf.compiled.table, stack[|stack| - 1], l).value.production;
    var next := ReduceBy(cf.compiled.productions, cf.compiled.table, stack, p).value;
    assert MoveOn(cf.compiled.productions, cf.compiled.table, stack, l) == Reduced(next);
    if |next| > cf.limits.maxParseStack {
      assert Reductions(cf.compiled.productions, cf.compiled.table, next, l, 0) == Some(next);
      assert Oversized(cf.compiled, cf.limits, stack, l, 1);
    } else {
      FailureOverflows(cf, next, l, fuel - 1);
      var n: nat :| Oversized(cf.compiled, cf.limits, next, l, n);
      assert Oversized(cf.compiled, cf.limits, stack, l, n + 1);
    }
  }

  // A loop that comes back says what the reductions end in.
  lemma SettledAction(cf: Config, stack: seq<nat>, l: Lookahead, action: Action)
    requires Settle(cf, stack, l, cf.fuel).Done? && !action.Reduce?
    ensures Settle(cf, stack, l, cf.fuel).value == Some(action) <==>
              exists n: nat :: LeadsTo(cf.compiled, stack, l, n, action)
  {
    hide Settle;
    var ps, table := cf.compiled.productions, cf.compiled.table;
    var m := SettleReduces(cf, stack, l, cf.fuel);
    assert SettlesAfter(ps, table, stack, l, m);
    if Settle(cf, stack, l, cf.fuel).value == Some(action) {
      assert LeadsTo(cf.compiled, stack, l, m, action);
    }
    if n: nat :| LeadsTo(cf.compiled, stack, l, n, action) {
      assert SettlesAfter(ps, table, stack, l, n);
      SettlesUnique(ps, table, stack, l, n, m);
      SettlesUnique(ps, table, stack, l, m, n);
    }
  }

  // Enough fuel to come back under every lookahead.
  ghost predicate Uncut(cf: Config, stack: seq<nat>) {
    && !RanOut(Settle(cf, stack, Eof, cf.fuel))
    && forall t: nat :: t < |cf.compiled.grammar.terminals| ==> !RanOut(Settle(cf, stack, On(t), cf.fuel))
  }

  // Then the loop fails exactly when the stack overflows.
  lemma SettleExact(cf: Config, first: seq<set<nat>>, a: Automaton, stack: seq<nat>, u: seq<Token>, k: nat,
      l: Lookahead)
    requires Ready(cf, first, a) && ReachedBy(cf.compiled.productions, cf.compiled.table, stack, u, k)
    requires TokensFor(cf.compiled.grammar, u) && !RanOut(Settle(cf, stack, l, cf.fuel))
    ensures Settle(cf, stack, l, cf.fuel).Failed? <==> Overflows(cf.compiled, cf.limits, stack, l)
  {
    hide Ready, ReachedBy, TokensFor, Oversized, Settle, ReductionBound;
    SettleSucceeds(cf, first, a, stack, u, k, l);
    if Settle(cf, stack, l, cf.fuel).Failed? {
      FailureOverflows(cf, stack, l, cf.fuel);
    } else {
      forall n: nat ensures !Oversized(cf.compiled, cf.limits, stack, l, n) {
        SettledFits(cf, stack, l, cf.fuel, n);
      }
    }
  }

  // ---------- The candidates ----------

  lemma {:induction false} CandidatesExact(cf: Config, stack: seq<nat>, t: nat, found: seq<Candidate>)
    ensures var r := Candidates(cf, stack, t, found);
            && (r.Failed? <==>
                 exists s: nat :: t <= s < |cf.compiled.grammar.terminals| && Settle(cf, stack, On(s), cf.fuel).Failed?)
            && (r.Done? ==> |r.value| == |found| + ShiftCount(cf.compiled, stack, t))
    decreases |cf.compiled.grammar.terminals| - t
  {
    hide Settle, CanShift;
    if t < |cf.compiled.grammar.terminals| {
      match Settle(cf, stack, On(t), cf.fuel)
      case Failed(_, _) =>
      case Done(settled, action) =>
        ShiftableHere(cf, stack, t);
        if action.Some? && action.value.Shift? {
          var q := action.value.state;
          CandidatesExact(cf, stack, t + 1,
            found + [Candidate(t, Terminals.Start(cf.compiled.grammar.terminals[t]), settled, q)]);
        } else {
          CandidatesExact(cf, stack, t + 1, found);
        }
    }
  }

  lemma ShiftableHere(cf: Config, stack: seq<nat>, t: nat)
    requires Settle(cf, stack, On(t), cf.fuel).Done?
    ensures var action := Settle(cf, stack, On(t), cf.fuel).value;
            action.Some? && action.value.Shift? <==> CanShift(cf.compiled, stack, t)
  {
    hide Settle, LeadsTo;
    var action := Settle(cf, stack, On(t), cf.fuel).value;
    if action.Some? && action.value.Shift? {
      SettledAction(cf, stack, On(t), action.value);
    }
    if CanShift(cf.compiled, stack, t) {
      var n: nat, q: nat :| LeadsTo(cf.compiled, stack, On(t), n, Shift(q));
      SettledAction(cf, stack, On(t), Shift(q));
    }
  }

  lemma StartCandidatesExact(cf: Config, first: seq<set<nat>>, a: Automaton, stack: seq<nat>, u: seq<Token>, k: nat)
    requires Ready(cf, first, a) && ReachedBy(cf.compiled.productions, cf.compiled.table, stack, u, k)
    requires TokensFor(cf.compiled.grammar, u) && Uncut(cf, stack)
    ensures StartCandidates(cf, stack).Failed? <==> TokensShut(cf.compiled, cf.limits, stack)
    ensures StartCandidates(cf, stack).Done? ==> |StartCandidates(cf, stack).value| == ShiftCount(cf.compiled, stack, 0)
  {
    hide Ready, ReachedBy, TokensFor, Settle, Candidates, Overflows, ShiftCount;
    CandidatesExact(cf, stack, 0, []);
    forall t: nat | t < |cf.compiled.grammar.terminals|
      ensures Settle(cf, stack, On(t), cf.fuel).Failed? <==> Overflows(cf.compiled, cf.limits, stack, On(t))
    {
      SettleExact(cf, first, a, stack, u, k, On(t));
    }
  }

  // ---------- Main results ----------

  // Accepting exactly when the end is open.
  lemma AcceptsUnlessShut(cf: Config, first: seq<set<nat>>, a: Automaton, st: State, u: seq<Token>, k: nat, v: Word)
    requires Ready(cf, first, a) && StateFor(cf, st, u, k, v) && Uncut(cf, st.stack)
    ensures StackAccepts(cf, st) <==> st.candidates == [] && !EndShut(cf.compiled, cf.limits, st.stack)
    ensures Settle(cf, st.stack, Eof, cf.fuel).Failed? <==> Overflows(cf.compiled, cf.limits, st.stack, Eof)
  {
    hide Ready, ReachedBy, TokensFor, Settle, Overflows, LeadsTo, StateFor;
    StateFacts(cf, st, u, k, v);
    SettleExact(cf, first, a, st.stack, u, k, Eof);
    if Settle(cf, st.stack, Eof, cf.fuel).Done? {
      SettledAction(cf, st.stack, Eof, Accept);
    }
  }

  // Live exactly when the limits leave something open; and when they do not, some limit is to blame.
  lemma LiveUnlessTight(cf: Config, first: seq<set<nat>>, a: Automaton, st: State, u: seq<Token>, k: nat, v: Word)
    requires Ready(cf, first, a) && StateFor(cf, st, u, k, v) && Uncut(cf, st.stack)
    ensures StackLives(cf, st) <==> !Tight(cf.compiled, cf.limits, st)
    ensures Tight(cf.compiled, cf.limits, st) ==>
              TokensShut(cf.compiled, cf.limits, st.stack) || Overflows(cf.compiled, cf.limits, st.stack, Eof)
  {
    hide Ready, ReachedBy, TokensFor, Settle, StartCandidates, StackAccepts, Overflows, TokensShut, EndShut,
      ShiftCount, StateFor, Uncut;
    StateFacts(cf, st, u, k, v);
    AcceptsUnlessShut(cf, first, a, st, u, k, v);
    StartCandidatesExact(cf, first, a, st.stack, u, k);
    LiveUnlessLimited(cf, first, a, st, u, k, v);
  }

  // ---------- Enough fuel for an input ----------

  // With this fuel the run over `x` comes back from every loop, more fuel changes nothing, and behind `x` every
  // lookahead
  // settles or overflows.
  ghost predicate Ample(cf: Config, x: Word) {
    && Enough(cf, x, cf.fuel)
    && (Feed(cf, x).Done? && Feed(cf, x).value ==> Uncut(cf, Feed(cf, x).state.stack))
  }

  lemma SomeAmple(cf: Config, first: seq<set<nat>>, a: Automaton, x: Word) returns (enough: nat)
    requires Ready(cf, first, a)
    ensures forall fuel: nat :: fuel >= enough ==> Ample(With(cf, fuel), x)
  {
    hide Ready, Feed, ReductionBound, Uncut;
    var before := SomeEnough(cf, first, a, x);
    var r := Feed(With(cf, before), x);
    enough := before + ReductionBound(cf.compiled.grammar, cf.compiled.table, r.state.stack) + 1;
    forall fuel: nat | fuel >= enough ensures Ample(With(cf, fuel), x) {
      ReadyWith(cf, first, a, fuel);
      EnoughFrom(cf, x, before, fuel);
      if Feed(With(cf, fuel), x).Done? && Feed(With(cf, fuel), x).value {
        UncutHere(With(cf, fuel), first, a, x);
      }
    }
  }

  lemma EnoughFrom(cf: Config, x: Word, before: nat, fuel: nat)
    requires Enough(cf, x, before) && fuel >= before
    ensures Enough(With(cf, fuel), x, fuel) && Feed(With(cf, fuel), x) == Feed(With(cf, before), x)
  {
    hide Feed;
    forall more: nat | more >= fuel
      ensures Feed(With(With(cf, fuel), more), x) == Feed(With(With(cf, fuel), fuel), x)
      ensures !RanOut(Feed(With(With(cf, fuel), more), x))
    {
      assert With(With(cf, fuel), more) == With(cf, more) && With(With(cf, fuel), fuel) == With(cf, fuel);
    }
  }

  lemma UncutHere(cf: Config, first: seq<set<nat>>, a: Automaton, x: Word)
    requires Ready(cf, first, a) && Feed(cf, x).Done? && Feed(cf, x).value
    requires cf.fuel > ReductionBound(cf.compiled.grammar, cf.compiled.table, Feed(cf, x).state.stack)
    ensures Uncut(cf, Feed(cf, x).state.stack)
  {
    hide Ready, Feed, ReductionBound, Settle, Spells, StateFor;
    var st := Feed(cf, x).state;
    var u, k, v := FeedSpells(cf, first, a, x);
    SpellsFacts(cf, st, u, k, v, x);
    SettleSucceeds(cf, first, a, st.stack, u, k, Eof);
    forall t: nat | t < |cf.compiled.grammar.terminals| ensures !RanOut(Settle(cf, st.stack, On(t), cf.fuel)) {
      SettleSucceeds(cf, first, a, st.stack, u, k, On(t));
    }
  }

  // Behind an input, with ample fuel: live, accepting and the end in terms of the limits.
  lemma AmpleTells(cf: Config, first: seq<set<nat>>, a: Automaton, x: Word)
    requires Ready(cf, first, a) && Ample(cf, x) && Feed(cf, x).Done? && Feed(cf, x).value
    ensures var st := Feed(cf, x).state;
            && (StackLives(cf, st) <==> !Tight(cf.compiled, cf.limits, st))
            && (Settle(cf, st.stack, Eof, cf.fuel).Failed? <==> Overflows(cf.compiled, cf.limits, st.stack, Eof))
  {
    hide *;
    var st := Feed(cf, x).state;
    var u, k, v := FeedSpells(cf, first, a, x);
    SpellsFacts(cf, st, u, k, v, x);
    AmpleUncut(cf, x);
    LiveUnlessTight(cf, first, a, st, u, k, v);
    AcceptsUnlessShut(cf, first, a, st, u, k, v);
  }

  lemma AmpleUncut(cf: Config, x: Word)
    requires Ample(cf, x) && Feed(cf, x).Done? && Feed(cf, x).value
    ensures Uncut(cf, Feed(cf, x).state.stack)
  {
    hide Feed, Uncut;
  }

  lemma AmpleMore(cf: Config, x: Word, more: nat)
    requires Ample(cf, x) && more >= cf.fuel
    ensures Ample(With(cf, more), x) && Feed(With(cf, more), x) == Feed(cf, x)
  {
    hide Feed, Settle;
    assert With(cf, cf.fuel) == cf;
    EnoughFrom(cf, x, cf.fuel, more);
    if Feed(cf, x).Done? && Feed(cf, x).value {
      var stack := Feed(cf, x).state.stack;
      SettleMore(cf, more, stack, Eof, cf.fuel, more);
      forall t: nat | t < |cf.compiled.grammar.terminals|
        ensures !RanOut(Settle(With(cf, more), stack, On(t), more))
      {
        SettleMore(cf, more, stack, On(t), cf.fuel, more);
      }
    }
  }

  // More fuel than ample changes nothing: not the run, and not whether the recognizer is live behind it.
  lemma AmpleForever(cf: Config, first: seq<set<nat>>, a: Automaton, x: Word, more: nat)
    requires Ready(cf, first, a) && Ample(cf, x) && more >= cf.fuel
    ensures Feed(With(cf, more), x) == Feed(cf, x)
    ensures Feed(cf, x).Done? && Feed(cf, x).value ==>
              (StackLives(With(cf, more), Feed(cf, x).state) <==> StackLives(cf, Feed(cf, x).state))
  {
    hide Ready, Feed, Ample, StackLives, Tight;
    ReadyWith(cf, first, a, more);
    AmpleMore(cf, x, more);
    if Feed(cf, x).Done? && Feed(cf, x).value {
      AmpleTells(cf, first, a, x);
      AmpleTells(With(cf, more), first, a, x);
    }
  }
}
