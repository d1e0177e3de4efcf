/**
 A tight parse-stack limit separates "not rejected" from "live".  For the grammar S -> a S c, S -> empty, which no
 certificate can collapse, a stack limit of two lets the token a through and then refuses the reduction by which c could
 come next.  A mask, which asks for liveness, leaves out a token that committing would accept.  The grammar is one the
 residual construction returns and the table one the builder's contract allows for it.  `LalrRoom.LiveUnlessTight` says
 exactly when it happens; with a stack limit of three the two agree again.
 */
module LalrLimits {
  import opened Grammars
  import opened Terminals
  import opened Runtime
  import opened ResidualGrammars
  import opened Lalr
  import opened LalrDriver
  import Recognizers
  import Masks
  import LexicalSafety
  import LalrBuild
  import LalrTheorems
  import Certification
  import LinearComponents
  import RegularExpressions
  import ResidualBuild
  import SchemaGrammars

  const A: Byte := 97
  const C: Byte := 99

  function SmallProductions(): seq<Production> {
    [Production(0, [Terminal(0), Nonterminal(0), Terminal(1)]), Production(0, [])]
  }

  function SmallGrammar(): ResidualGrammar {
    ResidualGrammar(0, 1, [Literal([A]), Literal([C])], SmallProductions(), [[0, 1]], [true])
  }

  function SmallTable(): LalrTable {
    LalrTable([map[On(0) := Shift(2), Eof := Reduce(1)], map[Eof := Accept], map[On(0) := Shift(2), On(1) := Reduce(1)],
               map[On(1) := Shift(4)], map[On(1) := Reduce(0), Eof := Reduce(0)]],
              [map[0 := 1], map[], map[0 := 3], map[], map[]])
  }

  function SmallConfig(stackLimit: nat): Config {
    Config(CompiledLalr(SmallGrammar(), AugmentedProductions(SmallGrammar()), SmallTable(), [], true),
           RuntimeLimits(100, stackLimit, 100, 100, 100, 100, 100, 100, 100, 100), 10)
  }

  function AfterA(): State {
    State([0, 2], [], 1)
  }

  lemma FirstCandidates(stackLimit: nat)
    requires stackLimit >= 2
    ensures StartCandidates(SmallConfig(stackLimit), [0]) == Done((), [Candidate(0, AtOffset(0), [0], 2)])
  {
    var cf := SmallConfig(stackLimit);
    assert Settle(cf, [0], On(0), cf.fuel) == Done([0], Some(Shift(2)));
    assert Settle(cf, [0], On(1), cf.fuel) == Done([0], None);
    var found := [Candidate(0, AtOffset(0), [0], 2)];
    assert Candidates(cf, [0], 2, found) == Done((), found);
    assert Candidates(cf, [0], 1, found) == Done((), found);
    assert [] + found == found;
  }

  lemma TakesA(stackLimit: nat)
    requires stackLimit >= 2
    ensures LalrDriver.AdvanceByte(SmallConfig(stackLimit), Initial(), A) == Done(AfterA(), true)
  {
    var cf := SmallConfig(stackLimit);
    FirstCandidates(stackLimit);
    var c := Candidate(0, AtOffset(0), [0], 2);
    var next := Candidate(0, AtOffset(1), [0], 2);
    assert Step(cf, c, A) == Some(next);
    var one := [c];
    assert one[..|one| - 1] == [] && one[|one| - 1] == c;
    assert [] + [next] == [next];
    assert StepAll(cf, [], A) == ([], []);
    assert StepAll(cf, one, A) == ([next], []);
    assert [0] + [2] == [0, 2];
  }

  // After a, the token c needs the empty rule reduced onto a stack of three.
  lemma NeedsThree(stackLimit: nat)
    ensures Settle(SmallConfig(stackLimit), [0, 2], On(1), 10) ==
            if stackLimit < 3 then Failed([0, 2, 3], LimitExceeded(ParseStack, 3, stackLimit))
              else Done([0, 2, 3], Some(Shift(4)))
  {
    var cf := SmallConfig(stackLimit);
    assert AugmentedProductions(SmallGrammar())[1].rhs == [];
    assert [0, 2][..2] == [0, 2] && [0, 2] + [3] == [0, 2, 3];
    assert ReduceBy(cf.compiled.productions, cf.compiled.table, [0, 2], 1) == Some([0, 2, 3]);
    assert Settle(cf, [0, 2, 3], On(1), 9) == Done([0, 2, 3], Some(Shift(4)));
  }

  lemma LiveAfterA(stackLimit: nat)
    ensures StackLives(SmallConfig(stackLimit), AfterA()) <==> stackLimit >= 3
  {
    var cf := SmallConfig(stackLimit);
    NeedsThree(stackLimit);
    assert Settle(cf, [0, 2], Eof, cf.fuel) == Done([0, 2], None);
    assert Settle(cf, [0, 2], On(0), cf.fuel) == Done([0, 2], Some(Shift(2)));
    var again := [Candidate(0, AtOffset(0), [0, 2], 2)];
    assert [] + again == again;
    if stackLimit >= 3 {
      var both := again + [Candidate(1, AtOffset(0), [0, 2, 3], 4)];
      assert Candidates(cf, [0, 2], 2, both) == Done((), both);
      assert Candidates(cf, [0, 2], 1, again) == Done((), both);
      assert Candidates(cf, [0, 2], 0, []) == Done((), both);
    } else {
      assert Candidates(cf, [0, 2], 1, again).Failed?;
      assert Candidates(cf, [0, 2], 0, []).Failed?;
    }
  }

  // The byte a gets through, and the mask does not allow it.
  lemma PassesWithoutBeingAllowed()
    ensures var m := Recognizers.LalrMachine(SmallConfig(2));
            var s := Recognizers.LalrAt(Initial());
            && Recognizers.Passes(m, s, [A], Recognizers.LalrAt(AfterA()))
            && !Masks.Allows(m, s, [A])
  {
    TakesA(2);
    LiveAfterA(2);
    var m, s := Recognizers.LalrMachine(SmallConfig(2)), Recognizers.LalrAt(Initial());
    hide LalrDriver.AdvanceByte, StackLives, SmallConfig;
    assert Recognizers.StepByte(m, s, A) == Done(Recognizers.LalrAt(AfterA()), true);
    assert [A][1..] == [];
    assert Recognizers.Consume(m, Recognizers.LalrAt(AfterA()), []) == Done(Recognizers.LalrAt(AfterA()), true);
    assert Recognizers.Consume(m, s, [A]) == Done(Recognizers.LalrAt(AfterA()), true);
  }

  // ---------- The table is one for this grammar ----------

  function SmallFirst(): seq<set<nat>> {
    [{0}]
  }

  function SmallAutomaton(): Automaton {
    Automaton([{LrItem(2, 0, Eof), LrItem(0, 0, Eof), LrItem(1, 0, Eof)}, {LrItem(2, 1, Eof)},
               {LrItem(0, 1, Eof), LrItem(0, 1, On(1)), LrItem(0, 0, On(1)), LrItem(1, 0, On(1))},
               {LrItem(0, 2, Eof), LrItem(0, 2, On(1))}, {LrItem(0, 3, Eof), LrItem(0, 3, On(1))}],
              map[(0, Nonterminal(0)) := 1, (0, Terminal(0)) := 2, (2, Nonterminal(0)) := 3, (2, Terminal(0)) := 2,
                  (3, Terminal(1)) := 4])
  }

  lemma AllProductions()
    ensures AugmentedProductions(SmallGrammar()) ==
            [Production(0, [Terminal(0), Nonterminal(0), Terminal(1)]), Production(0, []),
              Production(1, [Nonterminal(0)])]
    ensures |SmallGrammar().productions| == 2
  {
  }

  lemma SmallDerives()
    ensures Generates(AsCfg(SmallGrammar()), 0, [])
  {
    var c := AsCfg(SmallGrammar());
    var empty := Node(1, Nil);
    assert TreeFor(c, empty, Nonterminal(0)) && Yield(empty) == [];
  }

  lemma SmallWellFormed()
    ensures WellFormed(SmallGrammar())
  {
    SmallDerives();
  }

  lemma SmallProductive()
    ensures Productive(SmallGrammar())
  {
    var g := SmallGrammar();
    SmallDerives();
    forall t | t in g.terminals ensures MatchesSome(t) {
      LiteralRun(t.bytes, 0, t.bytes);
      assert Matches(t, t.bytes);
    }
  }

  lemma SmallSafe()
    ensures LexicalSafety.Safe(SmallGrammar().terminals)
  {
    var l, r := Literal([A]), Literal([C]);
    forall w: Word ensures !LexicalSafety.OverlapOn(l, r, w) {
      if w != [] && Advance(l, Start(l), w[0]).Some? {
        assert Advance(r, Start(r), w[0]).None?;
      }
    }
  }

  lemma SmallFirstClosed()
    ensures FirstClosed(SmallGrammar(), SmallFirst())
  {
    SmallWellFormed();
    var g := SmallGrammar();
    assert FirstOf(g.nullable, SmallFirst(), [Terminal(0), Nonterminal(0), Terminal(1)]) == {0};
    assert FirstOf(g.nullable, SmallFirst(), []) == {};
  }

  lemma SmallItems(m: nat, item: LrItem)
    requires m < |SmallAutomaton().states| && item in SmallAutomaton().states[m]
    ensures ItemInRange(SmallGrammar(), item)
    ensures match m
            case 0 => item == LrItem(2, 0, Eof) || item == LrItem(0, 0, Eof) || item == LrItem(1, 0, Eof)
            case 1 => item == LrItem(2, 1, Eof)
            case 2 =>
              item == LrItem(0, 1, Eof) || item == LrItem(0, 1, On(1)) || item == LrItem(0, 0, On(1))
              || item == LrItem(1, 0, On(1))
            case 3 => item == LrItem(0, 2, Eof) || item == LrItem(0, 2, On(1))
            case _ => m == 4 && (item == LrItem(0, 3, Eof) || item == LrItem(0, 3, On(1)))
  {
    AllProductions();
  }

  lemma SmallStatesClosed()
    ensures FirstKnown(SmallGrammar(), SmallFirst())
    ensures StatesClosed(SmallGrammar(), SmallFirst(), SmallAutomaton().states)
  {
    SmallWellFormed();
    AllProductions();
    var g, first, states := SmallGrammar(), SmallFirst(), SmallAutomaton().states;
    forall m: nat, item | m < |states| && item in states[m] ensures ItemInRange(g, item) {
      SmallItems(m, item);
    }
    forall m: nat, item, p: nat, l | m < |states| && item in states[m] && Expands(g, first, item, p, l)
      ensures LrItem(p, 0, l) in states[m]
    {
      SmallItems(m, item);
      SmallTails(item);
    }
  }

  // The lookaheads behind the dots that stand before a nonterminal.
  lemma SmallTails(item: LrItem)
    requires FirstKnown(SmallGrammar(), SmallFirst()) && ItemInRange(SmallGrammar(), item)
    requires Next(AugmentedProductions(SmallGrammar()), item).Some?
    ensures item == LrItem(2, 0, Eof) ==> ItemTail(SmallGrammar(), SmallFirst(), item) == {Eof}
    ensures item.production == 0 && item.dot == 1 ==> ItemTail(SmallGrammar(), SmallFirst(), item) == {On(1)}
  {
    AllProductions();
    var g := SmallGrammar();
    if item.production == 0 && item.dot == 1 {
      assert AugmentedProductions(g)[0].rhs[2..] == [Terminal(1)];
      assert FirstOf(g.nullable, SmallFirst(), [Terminal(1)]) == {1};
    } else if item == LrItem(2, 0, Eof) {
      assert AugmentedProductions(g)[2].rhs[1..] == [];
    }
  }

  lemma SmallEdgesForward()
    ensures EdgesForward(SmallGrammar(), SmallAutomaton())
  {
    AllProductions();
    var g, a := SmallGrammar(), SmallAutomaton();
    forall m: nat, item | m < |a.states| && item in a.states[m] && Next(AugmentedProductions(g), item).Some?
      ensures EdgeFor(g, a, m, item)
    {
      SmallItems(m, item);
    }
  }

  lemma SmallEdgesBackward()
    ensures EdgesBackward(SmallGrammar(), SmallAutomaton())
  {
    hide SmallGrammar, AugmentedProductions, CameFrom;
    var g, a := SmallGrammar(), SmallAutomaton();
    forall e | e in a.edges
      ensures e.0 < |a.states| && a.edges[e] < |a.states|
      ensures exists item :: item in a.states[e.0] && Next(AugmentedProductions(g), item) == Some(e.1)
    {
      SmallEdge(e);
    }
    forall e, item | e in a.edges && a.edges[e] < |a.states| && item in a.states[a.edges[e]] && item.dot > 0
      ensures CameFrom(g, a, e, item)
    {
      SmallCameFrom(e, item);
    }
  }

  lemma SmallCameFrom(e: (nat, Symbol), item: LrItem)
    requires var a := SmallAutomaton();
             e in a.edges && a.edges[e] < |a.states| && item in a.states[a.edges[e]] && item.dot > 0
    ensures CameFrom(SmallGrammar(), SmallAutomaton(), e, item)
  {
    AllProductions();
    SmallItems(SmallAutomaton().edges[e], item);
    SmallEdge(e);
  }

  // The item an edge moves, and its core before it.
  lemma SmallEdge(e: (nat, Symbol))
    requires e in SmallAutomaton().edges
    ensures var a, ps := SmallAutomaton(), AugmentedProductions(SmallGrammar());
            && e.0 < |a.states| && a.edges[e] < |a.states|
            && (exists item :: item in a.states[e.0] && Next(ps, item) == Some(e.1))
            && (e == (0, Nonterminal(0)) ==> a.edges[e] == 1 && HasCore(a.states[0], 2, 0))
            && (e.1 == Terminal(0) ==> a.edges[e] == 2 && HasCore(a.states[e.0], 0, 0))
            && (e == (2, Nonterminal(0)) ==> a.edges[e] == 3 && HasCore(a.states[2], 0, 1))
            && (e == (3, Terminal(1)) ==> a.edges[e] == 4 && HasCore(a.states[3], 0, 2))
  {
    AllProductions();
    var a, ps := SmallAutomaton(), AugmentedProductions(SmallGrammar());
    var item :=
      if e == (0, Nonterminal(0)) then LrItem(2, 0, Eof)
      else if e == (0, Terminal(0)) then LrItem(0, 0, Eof)
      else if e == (2, Terminal(0)) then LrItem(0, 0, On(1))
      else if e == (2, Nonterminal(0)) then LrItem(0, 1, Eof)
      else LrItem(0, 2, Eof);
    assert item in a.states[e.0] && Next(ps, item) == Some(e.1);
    assert LrItem(item.production, item.dot, item.lookahead) in a.states[e.0];
  }

  lemma SmallStartsExplained()
    ensures StartsExplained(SmallGrammar(), SmallAutomaton())
  {
    AllProductions();
    var g, a := SmallGrammar(), SmallAutomaton();
    forall m: nat, item | m < |a.states| && item in a.states[m] ensures Explained(g, a.states[m], item) {
      SmallExplained(m, item);
    }
    forall m: nat, item | m < |a.states| && item in a.states[m] && item.dot == 0 && IsStart(g, item) ensures m == 0 {
      SmallItems(m, item);
    }
    forall item | item in a.states[0] ensures item.dot == 0 {
      SmallItems(0, item);
    }
  }

  lemma SmallExplained(m: nat, item: LrItem)
    requires m < |SmallAutomaton().states| && item in SmallAutomaton().states[m]
    ensures Explained(SmallGrammar(), SmallAutomaton().states[m], item)
  {
    AllProductions();
    SmallItems(m, item);
    var g, state := SmallGrammar(), SmallAutomaton().states[m];
    var from := if m == 0 then LrItem(2, 0, Eof) else LrItem(0, 1, Eof);
    var chain := if item.dot == 0 && item.production < 2 then [from, item] else [item];
    if |chain| == 2 {
      assert LinkedItems(g, state, chain[0], chain[1]);
    }
    assert Chained(g, state, chain);
  }

  lemma SmallAutomatonFor()
    ensures AutomatonFor(SmallGrammar(), SmallFirst(), SmallAutomaton())
  {
    hide StatesClosed, EdgesForward, EdgesBackward, StartsExplained, FirstClosed, WellFormed;
    SmallWellFormed();
    SmallFirstClosed();
    SmallStatesClosed();
    SmallEdgesForward();
    SmallEdgesBackward();
    SmallStartsExplained();
    AllProductions();
  }

  lemma SmallTableComplete()
    ensures TableComplete(SmallGrammar(), SmallAutomaton(), SmallTable())
  {
    AllProductions();
    var g, a, table := SmallGrammar(), SmallAutomaton(), SmallTable();
    forall m: nat, item | m < |a.states| && item in a.states[m]
      ensures RowServes(g, a, m, item, table.actions[m], table.gotos[m])
    {
      SmallItems(m, item);
    }
  }

  lemma SmallTableSound()
    ensures TableSound(SmallGrammar(), SmallAutomaton(), SmallTable())
  {
    AllProductions();
    var g, a, table := SmallGrammar(), SmallAutomaton(), SmallTable();
    forall m: nat, l | m < |a.states| && l in table.actions[m] ensures ActionFrom(g, a, m, l, table.actions[m][l]) {
      SmallAction(m, l);
    }
    forall m: nat, n: nat | m < |a.states| && Awaits(g, a.states[m], n) ensures n in table.gotos[m] {
      var item :| item in a.states[m] && Next(AugmentedProductions(g), item) == Some(Nonterminal(n));
      SmallItems(m, item);
    }
  }

  lemma SmallAction(m: nat, l: Lookahead)
    requires m < |SmallAutomaton().states| && l in SmallTable().actions[m]
    ensures ActionFrom(SmallGrammar(), SmallAutomaton(), m, l, SmallTable().actions[m][l])
  {
    AllProductions();
    var g, a := SmallGrammar(), SmallAutomaton();
    match m
    case 0 => assert l == Eof ==> LrItem(1, 0, Eof) in a.states[0] && IsFinished(g, LrItem(1, 0, Eof), 1);
    case 1 => assert LrItem(2, 1, Eof) in a.states[1] && IsFinished(g, LrItem(2, 1, Eof), 2);
    case 2 => assert l == On(1) ==> LrItem(1, 0, l) in a.states[2] && IsFinished(g, LrItem(1, 0, l), 1);
    case 4 => assert LrItem(0, 3, l) in a.states[4] && IsFinished(g, LrItem(0, 3, l), 0);
    case _ =>
  }

  // The table meets the builder's whole contract, for a grammar whose symbols all derive something.
  lemma SmallWellBuilt(stackLimit: nat)
    ensures LalrBuild.WellBuilt(SmallConfig(stackLimit).compiled)
    ensures LalrBuild.IsUsable(SmallConfig(stackLimit).compiled)
    ensures Productive(SmallGrammar())
    ensures LalrTheorems.Ready(SmallConfig(stackLimit), SmallFirst(), SmallAutomaton())
  {
    hide AutomatonFor, TableSound, TableComplete, LexicalSafety.Safe, Productive;
    SmallAutomatonFor();
    SmallTableSound();
    SmallTableComplete();
    SmallSafe();
    SmallProductive();
    assert LalrBuild.BuiltOver(SmallConfig(stackLimit).compiled, SmallFirst(), SmallAutomaton());
  }

  // ---------- The grammar is one the residual construction returns ----------

  function SmallSource(): SchemaGrammars.Grammar {
    SchemaGrammars.Grammar(0, 1, [SchemaGrammars.LiteralTerminal([A]), SchemaGrammars.LiteralTerminal([C])],
                           SmallProductions())
  }

  function SmallSccs(): SchemaGrammars.SccAnalysis {
    SchemaGrammars.SccAnalysis([SchemaGrammars.Scc(0, [0], true)], [0])
  }

  // Its one component has its symbol in the middle, so it is linear at neither end and gets no certificate.
  lemma SmallUncertified()
    ensures !LinearComponents.LinearIn(SmallSource(), SmallSccs(), 0, false)
    ensures !LinearComponents.LinearIn(SmallSource(), SmallSccs(), 0, true)
  {
    var rhs := SmallProductions()[0].rhs;
    assert Certification.InComponent(SmallSccs(), 0, rhs[1]);
    assert !LinearComponents.OneEnd(SmallSccs(), 0, rhs, false) && !LinearComponents.OneEnd(SmallSccs(), 0, rhs, true);
    assert SmallSource().productions[0].lhs == 0;
  }

  lemma SameCfg(meaning: RegularExpressions.Meaning)
    ensures SchemaGrammars.CfgFor(meaning, SmallSource()) == AsCfg(SmallGrammar())
  {
    LiteralLanguage([A]);
    LiteralLanguage([C]);
    var c := SchemaGrammars.CfgFor(meaning, SmallSource());
    assert c.languages == [iset{[A]}, iset{[C]}] == AsCfg(SmallGrammar()).languages;
  }

  lemma SymbolStays(meaning: RegularExpressions.Meaning, s: Symbol)
    requires SymbolInRange(s, 1, 2)
    ensures ResidualBuild.SymbolCollapses(SchemaGrammars.CfgFor(meaning, SmallSource()), [Some(0)],
            SmallGrammar().terminals, s, s)
  {
    SameCfg(meaning);
    if s.Terminal? {
      forall w: Word
        ensures Matches(SmallGrammar().terminals[s.id], w) <==> Derives(AsCfg(SmallGrammar()), [s], w)
      {
        DerivesTerminal(AsCfg(SmallGrammar()), s.id, w);
      }
    }
  }

  lemma ProductionStays(meaning: RegularExpressions.Meaning, p: nat)
    requires p < 2
    ensures ResidualBuild.ProductionCollapses(SchemaGrammars.CfgFor(meaning, SmallSource()), [Some(0)],
            SmallGrammar().terminals, SmallProductions()[p], SmallProductions()[p])
  {
    hide ResidualBuild.SymbolCollapses, SchemaGrammars.CfgFor;
    var rhs := SmallProductions()[p].rhs;
    forall k | 0 <= k < |rhs|
      ensures ResidualBuild.SymbolCollapses(SchemaGrammars.CfgFor(meaning, SmallSource()), [Some(0)],
              SmallGrammar().terminals, rhs[k], rhs[k])
    {
      SymbolStays(meaning, rhs[k]);
    }
  }

  // Collapsing that grammar without certificates leaves it as it is.
  lemma SmallCollapses(meaning: RegularExpressions.Meaning)
    ensures ResidualBuild.Collapses(meaning, SmallSource(), [None], [Some(0)], SmallGrammar())
  {
    hide WellFormed, Generates, ResidualBuild.ProductionCollapses, SchemaGrammars.CfgFor, AsCfg;
    SmallWellFormed();
    SameCfg(meaning);
    SmallCollapsing(meaning);
  }

  lemma SmallCollapsing(meaning: RegularExpressions.Meaning)
    ensures ResidualBuild.Collapsing(SchemaGrammars.CfgFor(meaning, SmallSource()), [Some(0)],
            SmallGrammar().terminals, [0, 1], SmallProductions(), 2)
  {
    hide ResidualBuild.ProductionCollapses;
    var origins: seq<nat> := [0, 1];
    forall i: nat | i < 2
      ensures ResidualBuild.ProductionCollapses(SchemaGrammars.CfgFor(meaning, SmallSource()), [Some(0)],
              SmallGrammar().terminals, SmallProductions()[origins[i]], SmallProductions()[i])
    {
      ProductionStays(meaning, i);
    }
    assert origins[0] == 0 && origins[1] == 1;
    assert SchemaGrammars.CfgFor(meaning, SmallSource()).productions == SmallProductions();
  }
}
