/**
 A grammar that derives nothing reduces to one without productions.  What the structural recognizers do with that: the
 first byte is rejected, and nothing is ever accepted.
 */
module BarrenGrammars {
  import opened Grammars
  import opened Runtime
  import opened ResidualGrammars
  import Earley
  import EarleyChart
  import EarleyInvariant
  import EarleyTheorems
  import Lalr
  import LalrBuild
  import LalrDriver
  import LalrFuel
  import LalrRoom
  import LalrTheorems

  // ---------- Earley ----------

  // No item awaits a terminal, so nothing is scanned.
  lemma NothingScanned(cf: Earley.Config, x: Word, st: Earley.State)
    requires EarleyInvariant.Consumed(cf, x, st) && EarleyChart.WellBuilt(cf.compiled)
    requires cf.compiled.grammar.productions == []
    ensures st.scans == []
  {
    hide EarleyChart.Saturated, EarleyChart.WellBuilt;
    if st.scans != [] {
      var scan := st.scans[0];
      assert scan in st.scans;
      EarleyTheorems.AwaitedTerminal(cf, x, st, scan.start, scan.terminal);
      var item :| item in st.chart[scan.start].items && EarleyChart.Known(cf.compiled, item)
        && EarleyChart.Rule(cf.compiled, item).next == Some(Terminal(scan.terminal));
      NoTerminalNext(cf.compiled, item);
    }
  }

  lemma NoTerminalNext(compiled: Earley.CompiledEarley, item: Earley.Item)
    requires EarleyChart.WellBuilt(compiled) && compiled.grammar.productions == [] && EarleyChart.Known(compiled, item)
    ensures var next := EarleyChart.Rule(compiled, item).next;
            next.Some? ==> next.value.Nonterminal?
  {
    hide WellFormed;
    assert EarleyChart.RuleExact(compiled, item.dotted);
    assert compiled.productions == [Production(compiled.grammar.nonterminals, [Nonterminal(compiled.grammar.start)])];
  }

  // Without words it is never live.
  lemma NeverLive(cf: Earley.Config, x: Word, st: Earley.State)
    requires EarleyInvariant.Consumed(cf, x, st) && EarleyChart.WellBuilt(cf.compiled)
    requires cf.compiled.grammar.productions == [] && !Accepts(AsCfg(cf.compiled.grammar), x)
    ensures !Earley.IsLive(cf, st)
  {
    hide EarleyInvariant.Consumed, EarleyChart.WellBuilt, Earley.IsAccepting;
    NothingScanned(cf, x, st);
    EarleyTheorems.AcceptsExactly(cf, x, st);
  }

  // ---------- LALR ----------

  // The start state has no action at all.
  lemma NoAction(compiled: Lalr.CompiledLalr, first: seq<set<nat>>, a: Lalr.Automaton, l: Lalr.Lookahead)
    requires LalrBuild.BuiltOver(compiled, first, a) && compiled.grammar.productions == []
    ensures Lalr.FindAction(compiled.table, 0, l).None?
  {
    hide LalrBuild.BuiltOver, Lalr.AutomatonFor, Lalr.ItemInRange;
    var g := compiled.grammar;
    var action := Lalr.FindAction(compiled.table, 0, l);
    if action.Some? {
      ActionFound(compiled, first, a, l);
      if action.value.Shift? {
        EdgeFromItem(g, first, a, l.terminal);
        var item :| item in a.states[0] && Lalr.Next(AugmentedProductions(g), item) == Some(Terminal(l.terminal));
        StartStateItem(g, first, a, item);
      } else if action.value.Accept? {
        var item :| item in a.states[0] && Lalr.IsFinished(g, item, |g.productions|);
        StartStateItem(g, first, a, item);
      }
    }
  }

  lemma ActionFound(compiled: Lalr.CompiledLalr, first: seq<set<nat>>, a: Lalr.Automaton, l: Lalr.Lookahead)
    requires LalrBuild.BuiltOver(compiled, first, a) && Lalr.FindAction(compiled.table, 0, l).Some?
    ensures Lalr.AutomatonFor(compiled.grammar, first, a) && a.states != []
    ensures Lalr.ActionFrom(compiled.grammar, a, 0, l, Lalr.FindAction(compiled.table, 0, l).value)
  {
    hide WellFormed, Lalr.FirstClosed, Lalr.StatesClosed, Lalr.EdgesForward, Lalr.EdgesBackward, Lalr.StartsExplained,
      Lalr.ActionFrom, Lalr.TableComplete;
  }

  lemma EdgeFromItem(g: ResidualGrammar, first: seq<set<nat>>, a: Lalr.Automaton, t: nat)
    requires Lalr.AutomatonFor(g, first, a) && (0, Terminal(t)) in a.edges
    ensures exists item :: item in a.states[0] && Lalr.Next(AugmentedProductions(g), item) == Some(Terminal(t))
  {
    hide WellFormed, Lalr.FirstClosed, Lalr.StatesClosed, Lalr.EdgesForward, Lalr.StartsExplained;
  }

  lemma StartStateItem(g: ResidualGrammar, first: seq<set<nat>>, a: Lalr.Automaton, item: Lalr.LrItem)
    requires Lalr.AutomatonFor(g, first, a) && g.productions == [] && item in a.states[0]
    ensures item.dot == 0 && item.production == 0 && AugmentedProductions(g)[0].rhs == [Nonterminal(g.start)]
  {
    hide WellFormed, Lalr.FirstClosed, Lalr.EdgesForward, Lalr.EdgesBackward;
    assert Lalr.ItemInRange(g, item);
  }

  lemma {:induction false} NoCandidates(cf: LalrDriver.Config, first: seq<set<nat>>, a: Lalr.Automaton, t: nat)
    requires LalrBuild.BuiltOver(cf.compiled, first, a) && cf.compiled.grammar.productions == []
    ensures LalrDriver.Candidates(cf, [0], t, []) == Done((), [])
    decreases |cf.compiled.grammar.terminals| - t
  {
    hide LalrBuild.BuiltOver;
    if t < |cf.compiled.grammar.terminals| {
      NoAction(cf.compiled, first, a, Lalr.On(t));
      NoCandidates(cf, first, a, t + 1);
    }
  }

  // The first byte is rejected, unless it is one too many, and the end is not accepted either.
  lemma FirstByteRejected(cf: LalrDriver.Config, first: seq<set<nat>>, a: Lalr.Automaton, byte: Byte)
    requires LalrBuild.BuiltOver(cf.compiled, first, a) && cf.compiled.grammar.productions == []
    ensures var r := LalrDriver.AdvanceByte(cf, LalrDriver.Initial(), byte);
            if r.Failed? then Overrun(cf.limits, r.error) else !r.value
    ensures LalrDriver.Settle(cf, [0], Lalr.Eof, cf.fuel) == Done([0], None)
  {
    hide LalrBuild.BuiltOver;
    NoCandidates(cf, first, a, 0);
    NoAction(cf.compiled, first, a, Lalr.Eof);
  }

  // Every longer input ends where its first byte does, whatever the fuel.
  lemma {:induction false} BarrenFeed(cf: LalrDriver.Config, first: seq<set<nat>>, a: Lalr.Automaton, x: Word)
    requires LalrBuild.BuiltOver(cf.compiled, first, a) && cf.compiled.grammar.productions == [] && x != []
    ensures LalrTheorems.Feed(cf, x) == LalrDriver.AdvanceByte(cf, LalrDriver.Initial(), x[0])
    ensures var r := LalrTheorems.Feed(cf, x);
            if r.Failed? then Overrun(cf.limits, r.error) else !r.value
    decreases |x|
  {
    hide LalrBuild.BuiltOver, LalrDriver.AdvanceByte;
    var front, byte := x[..|x| - 1], x[|x| - 1];
    assert front + [byte] == x;
    LalrFuel.FeedMore(cf, front, byte);
    FirstByteRejected(cf, first, a, x[0]);
    if front != [] {
      BarrenFeed(cf, first, a, front);
    }
  }

  lemma AnyFuel(cf: LalrDriver.Config, first: seq<set<nat>>, a: Lalr.Automaton, fuel: nat, byte: Byte)
    requires LalrBuild.BuiltOver(cf.compiled, first, a) && cf.compiled.grammar.productions == []
    ensures LalrDriver.AdvanceByte(LalrFuel.With(cf, fuel), LalrDriver.Initial(), byte) ==
            LalrDriver.AdvanceByte(cf, LalrDriver.Initial(), byte)
  {
    hide LalrBuild.BuiltOver;
    NoCandidates(cf, first, a, 0);
    NoCandidates(LalrFuel.With(cf, fuel), first, a, 0);
  }

  // Any fuel is ample.
  lemma BarrenAmple(cf: LalrDriver.Config, first: seq<set<nat>>, a: Lalr.Automaton, x: Word)
    requires LalrBuild.BuiltOver(cf.compiled, first, a) && cf.compiled.grammar.productions == []
    ensures LalrRoom.Ample(cf, x)
  {
    hide LalrBuild.BuiltOver, LalrDriver.AdvanceByte;
    assert LalrFuel.With(cf, cf.fuel) == cf;
    if x == [] {
      StartUncut(cf, first, a);
    } else {
      forall fuel: nat | fuel >= cf.fuel
        ensures LalrTheorems.Feed(LalrFuel.With(cf, fuel), x) == LalrTheorems.Feed(cf, x)
        ensures !LalrFuel.RanOut(LalrTheorems.Feed(LalrFuel.With(cf, fuel), x))
      {
        BarrenFeed(cf, first, a, x);
        BarrenFeed(LalrFuel.With(cf, fuel), first, a, x);
        AnyFuel(cf, first, a, fuel, x[0]);
      }
      BarrenFeed(cf, first, a, x);
    }
  }

  lemma StartUncut(cf: LalrDriver.Config, first: seq<set<nat>>, a: Lalr.Automaton)
    requires LalrBuild.BuiltOver(cf.compiled, first, a) && cf.compiled.grammar.productions == []
    ensures LalrRoom.Uncut(cf, [0]) && !LalrDriver.StackAccepts(cf, LalrDriver.Initial())
  {
    hide LalrBuild.BuiltOver;
    NoAction(cf.compiled, first, a, Lalr.Eof);
    forall t: nat | t < |cf.compiled.grammar.terminals|
      ensures LalrDriver.Settle(cf, [0], Lalr.On(t), cf.fuel) == Done([0], None)
    {
      NoAction(cf.compiled, first, a, Lalr.On(t));
    }
  }
}
