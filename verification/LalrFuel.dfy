/**
 Enough fuel: for every input there is an amount from which on the reduction loop always comes back, and from which
 on more makes no difference.
 */
module LalrFuel {
  import opened Grammars
  import opened Terminals
  import opened Runtime
  import opened Lalr
  import opened LalrDriver
  import opened LalrTermination
  import opened LalrTheorems

  function With(cf: Config, fuel: nat): Config {
    cf.(fuel := fuel)
  }

  predicate RanOut<S, T>(r: Outcome<S, T>) {
    r.Failed? && r.error == NotSettled
  }

  // A loop that came back comes back the same way with more fuel.
  lemma {:induction false} SettleMore(cf: Config, more: nat, stack: seq<nat>, l: Lookahead, fuel: nat, fuel': nat)
    requires fuel <= fuel' && !RanOut(Settle(cf, stack, l, fuel))
    ensures Settle(With(cf, more), stack, l, fuel') == Settle(cf, stack, l, fuel)
    decreases fuel
  {
    if stack != [] {
      match FindAction(cf.compiled.table, stack[|stack| - 1], l)
      case Some(Reduce(p)) =>
        if fuel > 0 {
          match ReduceBy(cf.compiled.productions, cf.compiled.table, stack, p)
          case None =>
          case Some(next) =>
            if |next| <= cf.limits.maxParseStack {
              SettleMore(cf, more, next, l, fuel - 1, fuel' - 1);
            }
        }
      case _ =>
    }
  }

  lemma {:induction false} CandidatesMore(cf: Config, more: nat, stack: seq<nat>, t: nat, found: seq<Candidate>)
    requires cf.fuel <= more && !RanOut(Candidates(cf, stack, t, found))
    ensures Candidates(With(cf, more), stack, t, found) == Candidates(cf, stack, t, found)
    decreases |cf.compiled.grammar.terminals| - t
  {
    hide Settle;
    if t < |cf.compiled.grammar.terminals| {
      SettleMore(cf, more, stack, On(t), cf.fuel, more);
      match Settle(cf, stack, On(t), cf.fuel)
      case Failed(_, _) =>
      case Done(settled, Some(Shift(q))) =>
        CandidatesMore(cf, more, stack, t + 1,
          found + [Candidate(t, Start(cf.compiled.grammar.terminals[t]), settled, q)]);
      case Done(_, _) => CandidatesMore(cf, more, stack, t + 1, found);
    }
  }

  lemma {:induction false} StepAllSame(cf: Config, more: nat, candidates: seq<Candidate>, byte: Byte)
    ensures StepAll(With(cf, more), candidates, byte) == StepAll(cf, candidates, byte)
    decreases |candidates|
  {
    if candidates != [] {
      StepAllSame(cf, more, candidates[..|candidates| - 1], byte);
      assert Step(With(cf, more), candidates[|candidates| - 1], byte) == Step(cf, candidates[|candidates| - 1], byte);
    }
  }

  lemma AdvanceByteMore(cf: Config, more: nat, st: State, byte: Byte)
    requires cf.fuel <= more && !RanOut(LalrDriver.AdvanceByte(cf, st, byte))
    ensures LalrDriver.AdvanceByte(With(cf, more), st, byte) == LalrDriver.AdvanceByte(cf, st, byte)
  {
    hide Settle, Candidates, StepAll;
    if st.bytePosition + 1 <= cf.limits.maxInputBytes {
      if st.candidates == [] {
        CandidatesMore(cf, more, st.stack, 0, []);
      }
      var start := if st.candidates == [] then StartCandidates(cf, st.stack) else Done((), st.candidates);
      if start.Done? {
        StepAllSame(cf, more, start.value, byte);
      }
    }
  }

  // The runs over `x` with at least this much fuel come back from every loop, and are all the same.
  ghost predicate Enough(cf: Config, x: Word, enough: nat) {
    forall fuel: nat :: fuel >= enough ==>
      Feed(With(cf, fuel), x) == Feed(With(cf, enough), x) && !RanOut(Feed(With(cf, fuel), x))
  }

  lemma ReadyWith(cf: Config, first: seq<set<nat>>, a: Automaton, fuel: nat)
    requires Ready(cf, first, a)
    ensures Ready(With(cf, fuel), first, a)
  {
  }

  // One more byte from a state that every fuel from `enough` on reaches.
  lemma ByteEnough(cf: Config, first: seq<set<nat>>, a: Automaton, x: Word, byte: Byte, enough: nat, fuel: nat)
    requires Ready(cf, first, a) && Enough(cf, x, enough) && Feed(With(cf, enough), x).Done?
    requires Feed(With(cf, enough), x).value
    requires fuel >= enough
    requires fuel > ReductionBound(cf.compiled.grammar, cf.compiled.table, Feed(With(cf, enough), x).state.stack)
    ensures Feed(With(cf, fuel), x) == Feed(With(cf, enough), x)
    ensures !RanOut(LalrDriver.AdvanceByte(With(cf, fuel), Feed(With(cf, enough), x).state, byte))
  {
    hide Ready, Feed, LalrDriver.AdvanceByte, Spells, StateFor, ReductionBound;
    ReadyWith(cf, first, a, fuel);
    var cf' := With(cf, fuel);
    var st := Feed(cf', x).state;
    var u, k, v := FeedSpells(cf', first, a, x);
    SpellsFacts(cf', st, u, k, v, x);
    if RanOut(LalrDriver.AdvanceByte(cf', st, byte)) {
      AdvanceByteErrors(cf', first, a, st, u, k, v, byte);
    }
  }

  lemma FeedMore(cf: Config, x: Word, byte: Byte)
    ensures var r := Feed(cf, x);
            Feed(cf, x + [byte]) == if r.Failed? || !r.value then r else LalrDriver.AdvanceByte(cf, r.state, byte)
  {
    hide LalrDriver.AdvanceByte;
    assert (x + [byte])[..|x|] == x;
  }

  // For every input some amount of fuel is enough.
  lemma {:induction false} SomeEnough(cf: Config, first: seq<set<nat>>, a: Automaton, x: Word) returns (enough: nat)
    requires Ready(cf, first, a)
    ensures Enough(cf, x, enough)
    decreases |x|
  {
    hide Ready, LalrDriver.AdvanceByte, ReductionBound;
    if x == [] {
      enough := 0;
    } else {
      hide Feed;
      var front, byte := x[..|x| - 1], x[|x| - 1];
      assert front + [byte] == x;
      var before := SomeEnough(cf, first, a, front);
      var r := Feed(With(cf, before), front);
      if r.Failed? || !r.value {
        enough := before;
        forall fuel: nat | fuel >= enough
          ensures Feed(With(cf, fuel), x) == Feed(With(cf, enough), x) && !RanOut(Feed(With(cf, fuel), x))
        {
          FeedMore(With(cf, fuel), front, byte);
          FeedMore(With(cf, enough), front, byte);
        }
      } else {
        var bound := ReductionBound(cf.compiled.grammar, cf.compiled.table, r.state.stack);
        enough := before + bound + 1;
        forall fuel: nat | fuel >= enough
          ensures Feed(With(cf, fuel), x) == Feed(With(cf, enough), x) && !RanOut(Feed(With(cf, fuel), x))
        {
          FeedMore(With(cf, fuel), front, byte);
          FeedMore(With(cf, enough), front, byte);
          ByteEnough(cf, first, a, front, byte, before, enough);
          ByteEnough(cf, first, a, front, byte, before, fuel);
          AdvanceByteMore(With(cf, enough), fuel, r.state, byte);
          assert With(With(cf, enough), fuel) == With(cf, fuel);
        }
      }
    }
  }

  // And enough for the end of the input to settle, unless the stack limit stands in the way.
  lemma EndEnough(cf: Config, first: seq<set<nat>>, a: Automaton, x: Word) returns (enough: nat)
    requires Ready(cf, first, a)
    ensures Enough(cf, x, enough)
    ensures forall fuel: nat :: fuel >= enough && Feed(With(cf, fuel), x).Done? && Feed(With(cf, fuel), x).value ==>
              EndComesBack(With(cf, fuel), x)
  {
    hide Ready, Feed, ReductionBound, EndComesBack;
    var before := SomeEnough(cf, first, a, x);
    var r := Feed(With(cf, before), x);
    enough := before + ReductionBound(cf.compiled.grammar, cf.compiled.table, r.state.stack) + 1;
    forall fuel: nat | fuel >= enough && Feed(With(cf, fuel), x).Done? && Feed(With(cf, fuel), x).value
      ensures EndComesBack(With(cf, fuel), x)
    {
      ReadyWith(cf, first, a, fuel);
      EndHere(With(cf, fuel), first, a, x);
    }
  }

  // At the end of the input the loop fails only on the stack limit.
  ghost predicate EndComesBack(cf: Config, x: Word) {
    var r := Settle(cf, Feed(cf, x).state.stack, Eof, cf.fuel);
    r.Failed? ==> r.error.LimitExceeded? && r.error.resource == ParseStack
  }

  lemma EndHere(cf: Config, first: seq<set<nat>>, a: Automaton, x: Word)
    requires Ready(cf, first, a) && Feed(cf, x).Done? && Feed(cf, x).value
    requires cf.fuel > ReductionBound(cf.compiled.grammar, cf.compiled.table, Feed(cf, x).state.stack)
    ensures EndComesBack(cf, x)
  {
    hide Ready, Feed, ReductionBound, Settle, Spells, StateFor;
    var u, k, v := FeedSpells(cf, first, a, x);
    SpellsFacts(cf, Feed(cf, x).state, u, k, v, x);
    SettleSucceeds(cf, first, a, Feed(cf, x).state.stack, u, k, Eof);
  }
}
