/**
 From a lowered grammar to a backend: reduce, certify, and pick the whole automaton, the LALR table or the
 Earley recognizer.  Whatever is picked accepts exactly the language of the grammar that came in.
 */
module Preparation {
  import opened Grammars
  import opened CompileErrors
  import opened Runtime
  import opened RegularExpressions
  import opened SchemaGrammars
  import opened Certification
  import opened ByteAutomata
  import opened Recognizers
  import T = Terminals
  import R = ResidualGrammars
  import RC = RegularCertificates
  import GrammarMaps
  import GrammarReduction
  import GrammarReducer
  import ResidualBuild
  import Sccs
  import opened BackendChoices
  import LexicalSafety
  import LalrConflicts
  import Lalr
  import LalrBuild
  import LalrDriver
  import LalrTheorems
  import LalrFuel
  import LalrRoom
  import BarrenGrammars
  import Earley
  import EarleyRecognizers
  import EarleyChart
  import EarleyInvariant
  import EarleyTheorems

  datatype Policy = Auto | ForceDfa | ForceLalr | ForceEarley

  datatype Backend = WholeDfa(dfa: T.ByteDfa) | LalrBackend(lalr: Lalr.CompiledLalr)
    | EarleyBackend(earley: Earley.CompiledEarley)

  function MachineFor(b: Backend, limits: RuntimeLimits, fuel: nat): (m: Machine)
    ensures LimitsOf(m) == limits
  {
    match b
    case WholeDfa(dfa) => DfaMachine(dfa, limits)
    case LalrBackend(lalr) => LalrMachine(LalrDriver.Config(lalr, limits, fuel))
    case EarleyBackend(earley) => EarleyMachine(Earley.Config(earley, limits, true))
  }

  function Residual(b: Backend): R.ResidualGrammar
    requires !b.WholeDfa?
  {
    match b
    case LalrBackend(lalr) => lalr.grammar
    case EarleyBackend(earley) => earley.grammar
  }

  // A fresh recognizer; only Earley works, and can fail, before the first byte.
  function Opened(b: Backend, limits: RuntimeLimits): Outcome<MachineState, ()> {
    match b
    case WholeDfa(_) => Done(DfaAt(0, 0), ())
    case LalrBackend(_) => Done(LalrAt(LalrDriver.Initial()), ())
    case EarleyBackend(earley) => Map(Earley.Initial(Earley.Config(earley, limits, true)), st => EarleyAt(st))
  }

  ghost predicate SameLanguage(c: Cfg, meaning: Meaning, g: Grammar) {
    forall w: Word :: Accepts(c, w) <==> Accepts(CfgFor(meaning, g), w)
  }

  // The residual grammar of a structural backend stands for the grammar; when every terminal matches something, all of
  // it derives something, or there is nothing to derive from.
  ghost predicate ResidualFor(residual: R.ResidualGrammar, meaning: Meaning, g: Grammar) {
    && R.WellFormed(residual) && SameLanguage(R.AsCfg(residual), meaning, g)
    && (GrammarReduction.TerminalsMatch(meaning, g) ==>
          if GeneratesSome(CfgFor(meaning, g), g.start) then R.Productive(residual) else residual.productions == [])
  }

  ghost predicate Represents(b: Backend, meaning: Meaning, g: Grammar) {
    match b
    case WholeDfa(dfa) => T.LivenessExact(dfa)
      && forall w: Word :: T.Matches(T.Dfa(dfa), w) <==> Accepts(CfgFor(meaning, g), w)
    case LalrBackend(lalr) => LalrBuild.WellBuilt(lalr) && LalrBuild.IsUsable(lalr)
      && ResidualFor(lalr.grammar, meaning, g)
    case EarleyBackend(earley) => EarleyChart.WellBuilt(earley) && ResidualFor(earley.grammar, meaning, g)
  }

  // ---------- Running a backend ----------

  // The fuel of the LALR reduction loop is enough for the run over `x` and everything asked behind it; the other
  // machines need none.
  ghost predicate Ample(m: Machine, x: Word) {
    m.LalrMachine? ==> LalrRoom.Ample(m.lalr, x)
  }

  // The parse stack has room to settle the end of the input; only LALR needs any.
  ghost predicate RoomAtEnd(m: Machine, s: MachineState)
    requires Fits(m, s)
  {
    m.LalrMachine? ==> !LalrRoom.Overflows(m.lalr.compiled, m.lalr.limits, s.lalr.stack, Lalr.Eof)
  }

  // The limits leave a way on, or the end, open.
  ghost predicate Unshut(m: Machine, s: MachineState)
    requires Fits(m, s)
  {
    m.LalrMachine? ==> !LalrRoom.Tight(m.lalr.compiled, m.lalr.limits, s.lalr)
  }

  ghost predicate Extensible(meaning: Meaning, g: Grammar, x: Word) {
    exists y: Word :: Accepts(CfgFor(meaning, g), x + y)
  }

  // What a run over `x` tells: it fails only on a limit; otherwise it is alive exactly on the empty input and on what
  // starts a word, accepting exactly on the words, and sees that it can go on unless the limits shut everything.
  ghost predicate RunTells(m: Machine, r: Outcome<MachineState, bool>, meaning: Meaning, g: Grammar, x: Word)
    requires Fits(m, r.state)
  {
    && (r.Failed? ==> Overrun(LimitsOf(m), r.error))
    && (r.Done? ==> (r.value <==> x == [] || Extensible(meaning, g, x)))
    && (r.Done? && r.value ==>
          (Recognizers.IsAccepting(m, r.state) <==> Accepts(CfgFor(meaning, g), x) && RoomAtEnd(m, r.state)))
    && (r.Done? && r.value && x != [] ==> (Recognizers.IsLive(m, r.state) <==> Unshut(m, r.state)))
  }

  // ---------- The whole automaton ----------

  lemma {:induction false} DfaRuns(dfa: T.ByteDfa, limits: RuntimeLimits, s: nat, position: nat, x: Word)
    requires T.LivenessExact(dfa)
    ensures var r := Consume(DfaMachine(dfa, limits), DfaAt(s, position), x);
            && (r.Failed? ==> Overrun(limits, r.error) && r.error.resource == InputBytes
                              && r.error.observed <= position + |x|)
            && (r.Done? && r.value ==>
               r.state.DfaAt? && T.Run(T.Dfa(dfa), T.AtState(s), x) == Some(T.AtState(r.state.state)))
            && (r.Done? && r.value && x != [] ==> dfa.IsLive(r.state.state))
            && (r.Done? && !r.value ==> forall y: Word :: !T.AcceptsFrom(T.Dfa(dfa), T.AtState(s), x + y))
    decreases |x|
  {
    hide T.LivenessExact;
    if x != [] {
      var q := dfa.NextState(s, x[0]);
      var step := DfaAdvance(dfa, limits, s, position, x[0]);
      if step.Done? && step.value {
        DfaRuns(dfa, limits, q, position + 1, x[1..]);
        if x[1..] == [] {
          assert Consume(DfaMachine(dfa, limits), DfaAt(q, position + 1), x[1..]) == Done(DfaAt(q, position + 1), true);
        }
        forall y: Word
          ensures T.AcceptsFrom(T.Dfa(dfa), T.AtState(s), x + y) ==> T.AcceptsFrom(T.Dfa(dfa), T.AtState(q), x[1..] + y)
        {
          StepRun(dfa, s, x, y);
        }
      } else if step.Done? {
        forall y: Word ensures !T.AcceptsFrom(T.Dfa(dfa), T.AtState(s), x + y) {
          StepRun(dfa, s, x, y);
          NotLive(dfa, q, x[1..] + y);
        }
      }
    }
  }

  // With a position for every byte the automaton is never stopped.
  lemma DfaRoomy(dfa: T.ByteDfa, limits: RuntimeLimits, x: Word)
    requires T.LivenessExact(dfa) && |x| <= limits.maxInputBytes && |x| < TWO_TO_THE_32
    ensures Consume(DfaMachine(dfa, limits), DfaAt(0, 0), x).Done?
  {
    hide T.LivenessExact, Consume;
    DfaRuns(dfa, limits, 0, 0, x);
  }

  lemma StepRun(dfa: T.ByteDfa, s: nat, x: Word, y: Word)
    requires x != []
    ensures var q := dfa.NextState(s, x[0]);
            T.AcceptsFrom(T.Dfa(dfa), T.AtState(s), x + y) <==>
              !dfa.IsDead(q) && T.AcceptsFrom(T.Dfa(dfa), T.AtState(q), x[1..] + y)
  {
    assert (x + y)[0] == x[0] && (x + y)[1..] == x[1..] + y;
  }

  lemma NotLive(dfa: T.ByteDfa, q: nat, w: Word)
    requires T.LivenessExact(dfa)
    ensures !dfa.IsLive(q) ==> !T.AcceptsFrom(T.Dfa(dfa), T.AtState(q), w)
  {
  }

  lemma LiveHas(dfa: T.ByteDfa, q: nat) returns (w: Word)
    requires T.LivenessExact(dfa) && dfa.IsLive(q)
    ensures T.AcceptsFrom(T.Dfa(dfa), T.AtState(q), w)
  {
    w :| T.AcceptsFrom(T.Dfa(dfa), T.AtState(q), w);
  }

  lemma DfaTells(dfa: T.ByteDfa, limits: RuntimeLimits, meaning: Meaning, g: Grammar, x: Word)
    requires Represents(Backend.WholeDfa(dfa), meaning, g)
    ensures var m := DfaMachine(dfa, limits);
            RunTells(m, Consume(m, DfaAt(0, 0), x), meaning, g, x)
  {
    hide T.LivenessExact;
    var m := DfaMachine(dfa, limits);
    var r := Consume(m, DfaAt(0, 0), x);
    DfaRuns(dfa, limits, 0, 0, x);
    if r.Done? && r.value {
      assert T.Matches(T.Dfa(dfa), x) <==> dfa.IsAccepting(r.state.state);
      if x != [] {
        var y := LiveHas(dfa, r.state.state);
        T.RunAppend(T.Dfa(dfa), T.AtState(0), x, y);
        assert T.Matches(T.Dfa(dfa), x + y);
      }
    } else if r.Done? {
      forall y: Word ensures !Accepts(CfgFor(meaning, g), x + y) {
        assert !T.Matches(T.Dfa(dfa), x + y);
      }
      assert !Accepts(CfgFor(meaning, g), x) by { assert x + [] == x; }
    }
  }

  // ---------- The Earley recognizer ----------

  // A run that gets through is the Earley feed; one that is rejected has a prefix after which nothing is live.
  lemma {:induction false} EarleyRuns(cf: Earley.Config, x: Word)
    requires EarleyChart.WellBuilt(cf.compiled) && EarleyTheorems.Feed(cf, []).Done?
    ensures var m, s := EarleyMachine(cf), EarleyAt(EarleyTheorems.Feed(cf, []).state);
            Fits(m, s) &&
            var r := Consume(m, s, x);
            && (r.Failed? ==> Overrun(cf.limits, r.error))
            && (r.Done? && r.value ==>
               EarleyTheorems.Feed(cf, x).Done? && r.state == EarleyAt(EarleyTheorems.Feed(cf, x).state))
            && (r.Done? && r.value && x != [] ==> Earley.IsLive(cf, r.state.earley))
            && (r.Done? && !r.value ==> DiesIn(cf, x))
    decreases |x|
  {
    hide EarleyChart.WellBuilt, Earley.AdvanceByte, Earley.IsLive, Earley.Initial;
    EarleyFits(cf);
    var m, s := EarleyMachine(cf), EarleyAt(EarleyTheorems.Feed(cf, []).state);
    if x != [] {
      var front, last := x[..|x| - 1], x[|x| - 1];
      EarleyRuns(cf, front);
      ConsumeSplit(m, s, front, [last]);
      assert front + [last] == x;
      var r := Consume(m, s, front);
      if r.Done? && r.value {
        ConsumeOne(m, r.state, last);
        EarleyByteIsLive(cf, r.state.earley, last);
        EarleyTheorems.FeedConsumes(cf, x);
        if StepByte(m, r.state, last).Done? && !StepByte(m, r.state, last).value {
          assert x[..|x|] == x;
          assert Dies(cf, x, |x|);
        }
      } else if r.Done? {
        var k: nat :| Dies(cf, front, k);
        assert front[..k] == x[..k];
        assert Dies(cf, x, k);
      }
    }
  }

  lemma EarleyFits(cf: Earley.Config)
    requires EarleyChart.WellBuilt(cf.compiled) && EarleyTheorems.Feed(cf, []).Done?
    ensures EarleyTheorems.Feed(cf, []).state.chart != []
  {
    EarleyTheorems.FeedConsumes(cf, []);
  }

  lemma ConsumeOne(m: Machine, s: MachineState, byte: Byte)
    requires Fits(m, s)
    ensures Consume(m, s, [byte]) == StepByte(m, s, byte)
  {
    hide StepByte;
    assert [byte][1..] == [];
    var r := StepByte(m, s, byte);
    if r.Done? && r.value {
      assert Consume(m, r.state, []) == Done(r.state, true);
    }
  }

  ghost predicate Dies(cf: Earley.Config, x: Word, k: nat) {
    k <= |x| && EarleyTheorems.Feed(cf, x[..k]).Done? && !Earley.IsLive(cf, EarleyTheorems.Feed(cf, x[..k]).state)
  }

  ghost predicate DiesIn(cf: Earley.Config, x: Word) {
    exists k: nat :: Dies(cf, x, k)
  }

  // Nothing derives: no word at all.
  lemma NoWords(meaning: Meaning, g: Grammar, x: Word)
    requires !GeneratesSome(CfgFor(meaning, g), g.start)
    ensures !Extensible(meaning, g, x) && !Accepts(CfgFor(meaning, g), x)
  {
  }

  lemma WordStarts(meaning: Meaning, g: Grammar, x: Word)
    ensures Accepts(CfgFor(meaning, g), x) ==> Extensible(meaning, g, x)
  {
    hide CfgFor, Accepts;
    assert x + [] == x;
  }

  lemma EarleyAlive(cf: Earley.Config, meaning: Meaning, g: Grammar, x: Word)
    requires EarleyChart.WellBuilt(cf.compiled) && ResidualFor(cf.compiled.grammar, meaning, g)
    requires GrammarReduction.TerminalsMatch(meaning, g)
    requires EarleyTheorems.Feed(cf, x).Done? && (x != [] ==> Earley.IsLive(cf, EarleyTheorems.Feed(cf, x).state))
    ensures x == [] || Extensible(meaning, g, x)
    ensures Earley.IsAccepting(cf, EarleyTheorems.Feed(cf, x).state) <==> Accepts(CfgFor(meaning, g), x)
  {
    hide EarleyChart.WellBuilt, Earley.IsLive, EarleyTheorems.Feed, R.WellFormed, R.Productive,
      GrammarReduction.TerminalsMatch, Earley.IsAccepting, EarleyInvariant.Consumed, CfgFor, R.AsCfg, Accepts,
      GeneratesSome;
    EarleyTheorems.FeedConsumes(cf, x);
    var st := EarleyTheorems.Feed(cf, x).state;
    EarleyTheorems.AcceptsExactly(cf, x, st);
    if x != [] {
      if GeneratesSome(CfgFor(meaning, g), g.start) {
        EarleyTheorems.LiveExactly(cf, x, st);
        SameExtensions(cf.compiled.grammar, meaning, g, x);
      } else {
        NoWords(meaning, g, x);
        BarrenGrammars.NeverLive(cf, x, st);
      }
    }
  }

  lemma EarleyDead(cf: Earley.Config, meaning: Meaning, g: Grammar, x: Word, y: Word)
    requires EarleyChart.WellBuilt(cf.compiled) && ResidualFor(cf.compiled.grammar, meaning, g)
    requires GrammarReduction.TerminalsMatch(meaning, g) && DiesIn(cf, x)
    ensures !Accepts(CfgFor(meaning, g), x + y)
  {
    hide EarleyChart.WellBuilt, Earley.IsLive, EarleyTheorems.Feed, R.WellFormed, R.Productive,
      GrammarReduction.TerminalsMatch, EarleyInvariant.Consumed, CfgFor, R.AsCfg, Accepts, GeneratesSome;
    if GeneratesSome(CfgFor(meaning, g), g.start) {
      var k: nat :| Dies(cf, x, k);
      EarleyTheorems.FeedConsumes(cf, x[..k]);
      EarleyTheorems.LiveExactly(cf, x[..k], EarleyTheorems.Feed(cf, x[..k]).state);
      assert x + y == x[..k] + (x[k..] + y);
      assert !Accepts(R.AsCfg(cf.compiled.grammar), x[..k] + (x[k..] + y));
    } else {
      NoWords(meaning, g, x + y);
    }
  }

  lemma EarleyTells(earley: Earley.CompiledEarley, limits: RuntimeLimits, meaning: Meaning, g: Grammar, x: Word)
    requires Represents(Backend.EarleyBackend(earley), meaning, g) && GrammarReduction.TerminalsMatch(meaning, g)
    requires Opened(Backend.EarleyBackend(earley), limits).Done?
    ensures var b := Backend.EarleyBackend(earley);
            var m, s := MachineFor(b, limits, 0), Opened(b, limits).state;
            Fits(m, s) && RunTells(m, Consume(m, s, x), meaning, g, x)
  {
    hide EarleyChart.WellBuilt, Earley.IsLive, Earley.Initial, GrammarReduction.TerminalsMatch, Earley.IsAccepting,
      ResidualFor, Accepts, Consume, DiesIn;
    var cf := Earley.Config(earley, limits, true);
    EarleyRuns(cf, x);
    var r := Consume(EarleyMachine(cf), EarleyAt(EarleyTheorems.Feed(cf, []).state), x);
    if r.Done? && r.value {
      EarleyAlive(cf, meaning, g, x);
    } else if r.Done? {
      forall y: Word ensures !Accepts(CfgFor(meaning, g), x + y) {
        EarleyDead(cf, meaning, g, x, y);
      }
      EarleyEmpty(cf);
    }
  }

  lemma EarleyEmpty(cf: Earley.Config)
    requires EarleyChart.WellBuilt(cf.compiled) && EarleyTheorems.Feed(cf, []).Done?
    ensures EarleyTheorems.Feed(cf, []).state.chart != []
    ensures Consume(EarleyMachine(cf), EarleyAt(EarleyTheorems.Feed(cf, []).state), []) ==
            Done(EarleyAt(EarleyTheorems.Feed(cf, []).state), true)
  {
    hide EarleyChart.WellBuilt, Earley.Initial;
    EarleyFits(cf);
  }

  // ---------- The LALR recognizer ----------

  lemma {:induction false} LalrRuns(cf: LalrDriver.Config, x: Word)
    ensures var r, feed := Consume(LalrMachine(cf), LalrAt(LalrDriver.Initial()), x), LalrTheorems.Feed(cf, x);
            && r.Done? == feed.Done? && r.state == LalrAt(feed.state)
            && (r.Done? ==> r.value == feed.value) && (r.Failed? ==> r.error == feed.error)
    decreases |x|
  {
    hide LalrDriver.AdvanceByte;
    var m, s := LalrMachine(cf), LalrAt(LalrDriver.Initial());
    if x != [] {
      var front, last := x[..|x| - 1], x[|x| - 1];
      LalrRuns(cf, front);
      ConsumeSplit(m, s, front, [last]);
      assert front + [last] == x;
      ConsumeOne(m, Consume(m, s, front).state, last);
    }
  }

  lemma {:induction false} LalrFails(cf: LalrDriver.Config, first: seq<set<nat>>, a: Lalr.Automaton, x: Word)
    requires LalrTheorems.Ready(cf, first, a) && LalrTheorems.Feed(cf, x).Failed?
    ensures Overrun(cf.limits, LalrTheorems.Feed(cf, x).error) || LalrTheorems.Feed(cf, x).error == NotSettled
    decreases |x|
  {
    hide LalrTheorems.Ready, LalrDriver.AdvanceByte, LalrTheorems.Spells;
    if x != [] {
      var front, last := x[..|x| - 1], x[|x| - 1];
      var feed := LalrTheorems.Feed(cf, front);
      if feed.Failed? {
        LalrFails(cf, first, a, front);
      } else if feed.value {
        var u, k, v := LalrTheorems.FeedSpells(cf, first, a, front);
        LalrTheorems.SpellsFacts(cf, feed.state, u, k, v, front);
        LalrTheorems.AdvanceByteErrors(cf, first, a, feed.state, u, k, v, last);
      }
    }
  }

  // The fuel of the run is ample, so it fails only on limits.
  lemma AmpleFails(cf: LalrDriver.Config, first: seq<set<nat>>, a: Lalr.Automaton, x: Word)
    requires LalrTheorems.Ready(cf, first, a) && LalrRoom.Ample(cf, x) && LalrTheorems.Feed(cf, x).Failed?
    ensures Overrun(cf.limits, LalrTheorems.Feed(cf, x).error)
  {
    hide LalrTheorems.Ready, LalrTheorems.Feed, LalrRoom.Uncut;
    assert LalrFuel.With(cf, cf.fuel) == cf;
    LalrFails(cf, first, a, x);
  }

  // Behind `x` the recognizer is alive exactly when `x` starts a word, and accepts exactly when it is one and the end
  // has room.
  lemma FeedTells(cf: LalrDriver.Config, first: seq<set<nat>>, a: Lalr.Automaton, meaning: Meaning, g: Grammar, x: Word)
    requires LalrTheorems.Ready(cf, first, a) && SameLanguage(R.AsCfg(cf.compiled.grammar), meaning, g)
    requires LalrRoom.Ample(cf, x) && LalrTheorems.Feed(cf, x).Done?
    ensures LalrTheorems.Feed(cf, x).value <==> Extensible(meaning, g, x)
    ensures LalrTheorems.Feed(cf, x).value ==>
              var st := LalrTheorems.Feed(cf, x).state;
              LalrDriver.StackAccepts(cf, st) <==>
              Accepts(CfgFor(meaning, g), x) && !LalrRoom.Overflows(cf.compiled, cf.limits, st.stack, Lalr.Eof)
  {
    hide LalrTheorems.Ready, LalrTheorems.Feed, LalrRoom.Ample, LalrRoom.Overflows, LalrRoom.Tight, LalrDriver.Settle,
      LalrDriver.StackLives, CfgFor, R.AsCfg, Accepts;
    LalrTheorems.LalrAliveExactly(cf, first, a, x);
    SameExtensions(cf.compiled.grammar, meaning, g, x);
    var feed := LalrTheorems.Feed(cf, x);
    if feed.value {
      LalrRoom.AmpleTells(cf, first, a, x);
      if LalrDriver.StackAccepts(cf, feed.state) {
        LalrTheorems.LalrSound(cf, first, a, x);
      }
      if Accepts(R.AsCfg(cf.compiled.grammar), x) {
        LalrTheorems.LalrComplete(cf, first, a, x, |x|);
      }
    }
  }

  // What the run says, on the recognizer's own state.
  ghost predicate FeedTold(cf: LalrDriver.Config, feed: Outcome<LalrDriver.State, bool>, meaning: Meaning, g: Grammar,
      x: Word)
  {
    && (feed.Failed? ==> Overrun(cf.limits, feed.error))
    && (feed.Done? ==> (feed.value <==> x == [] || Extensible(meaning, g, x)))
    && (feed.Done? && feed.value ==>
          (LalrDriver.StackAccepts(cf, feed.state) <==>
           Accepts(CfgFor(meaning, g), x)
           && !LalrRoom.Overflows(cf.compiled, cf.limits, feed.state.stack, Lalr.Eof)))
    && (feed.Done? && feed.value && x != [] ==>
          (LalrDriver.StackLives(cf, feed.state) <==> !LalrRoom.Tight(cf.compiled, cf.limits, feed.state)))
  }

  lemma ToldTells(cf: LalrDriver.Config, meaning: Meaning, g: Grammar, x: Word)
    requires FeedTold(cf, LalrTheorems.Feed(cf, x), meaning, g, x)
    ensures var m := LalrMachine(cf);
            RunTells(m, Consume(m, LalrAt(LalrDriver.Initial()), x), meaning, g, x)
  {
    hide LalrTheorems.Feed, LalrDriver.StackAccepts, LalrDriver.StackLives, LalrRoom.Overflows, LalrRoom.Tight,
      Extensible, Accepts, CfgFor, Consume;
    LalrRuns(cf, x);
  }

  lemma ProductiveTells(cf: LalrDriver.Config, first: seq<set<nat>>, a: Lalr.Automaton, meaning: Meaning, g: Grammar,
      x: Word)
    requires LalrTheorems.Ready(cf, first, a) && LalrRoom.Ample(cf, x)
    requires SameLanguage(R.AsCfg(cf.compiled.grammar), meaning, g) && GeneratesSome(CfgFor(meaning, g), g.start)
    ensures FeedTold(cf, LalrTheorems.Feed(cf, x), meaning, g, x)
  {
    hide LalrTheorems.Ready, LalrTheorems.Feed, LalrRoom.Ample, LalrRoom.Tight, LalrRoom.Overflows,
      LalrDriver.StackAccepts, LalrDriver.StackLives, CfgFor, R.AsCfg, Accepts, SameLanguage, Extensible,
      GeneratesSome;
    var feed := LalrTheorems.Feed(cf, x);
    if feed.Failed? {
      AmpleFails(cf, first, a, x);
    } else {
      FeedTells(cf, first, a, meaning, g, x);
      SomethingStarts(meaning, g);
      if feed.value {
        LalrRoom.AmpleTells(cf, first, a, x);
      }
    }
  }

  lemma SomethingStarts(meaning: Meaning, g: Grammar)
    requires GeneratesSome(CfgFor(meaning, g), g.start)
    ensures Extensible(meaning, g, [])
  {
    var w: Word :| Generates(CfgFor(meaning, g), g.start, w);
    assert [] + w == w;
    assert Accepts(CfgFor(meaning, g), [] + w);
  }

  lemma BarrenTells(cf: LalrDriver.Config, first: seq<set<nat>>, a: Lalr.Automaton, meaning: Meaning, g: Grammar,
      x: Word)
    requires LalrBuild.BuiltOver(cf.compiled, first, a) && cf.compiled.grammar.productions == []
    requires !GeneratesSome(CfgFor(meaning, g), g.start)
    ensures FeedTold(cf, LalrTheorems.Feed(cf, x), meaning, g, x)
  {
    hide LalrBuild.BuiltOver, LalrDriver.AdvanceByte, LalrDriver.StackAccepts, LalrDriver.StackLives, CfgFor, Accepts,
      Extensible, GeneratesSome;
    NoWords(meaning, g, x);
    if x == [] {
      BarrenGrammars.StartUncut(cf, first, a);
    } else {
      BarrenGrammars.BarrenFeed(cf, first, a, x);
    }
  }

  lemma LalrTells(lalr: Lalr.CompiledLalr, limits: RuntimeLimits, fuel: nat, meaning: Meaning, g: Grammar, x: Word)
    requires Represents(Backend.LalrBackend(lalr), meaning, g) && GrammarReduction.TerminalsMatch(meaning, g)
    requires Ample(MachineFor(Backend.LalrBackend(lalr), limits, fuel), x)
    ensures var m := MachineFor(Backend.LalrBackend(lalr), limits, fuel);
            RunTells(m, Consume(m, LalrAt(LalrDriver.Initial()), x), meaning, g, x)
  {
    hide LalrBuild.BuiltOver, R.WellFormed, R.Productive, RunTells, LalrRoom.Ample, SameLanguage,
      GrammarReduction.TerminalsMatch, GeneratesSome, Consume, FeedTold;
    var cf := LalrDriver.Config(lalr, limits, fuel);
    var first, a :| LalrBuild.BuiltOver(lalr, first, a);
    if GeneratesSome(CfgFor(meaning, g), g.start) {
      assert LalrTheorems.Ready(cf, first, a);
      ProductiveTells(cf, first, a, meaning, g, x);
    } else {
      BarrenTells(cf, first, a, meaning, g, x);
    }
    ToldTells(cf, meaning, g, x);
  }

  lemma SameExtensions(residual: R.ResidualGrammar, meaning: Meaning, g: Grammar, x: Word)
    requires SameLanguage(R.AsCfg(residual), meaning, g)
    ensures Extensible(meaning, g, x) <==> exists y: Word :: Accepts(R.AsCfg(residual), x + y)
  {
    if y: Word :| Accepts(R.AsCfg(residual), x + y) {
      assert Accepts(CfgFor(meaning, g), x + y);
    }
  }

  // Whichever backend represents the grammar, a run over `x` with ample fuel tells about `x`.
  lemma BackendTells(b: Backend, limits: RuntimeLimits, fuel: nat, meaning: Meaning, g: Grammar, x: Word)
    requires Represents(b, meaning, g) && GrammarReduction.TerminalsMatch(meaning, g) && Opened(b, limits).Done?
    requires Ample(MachineFor(b, limits, fuel), x)
    ensures var m, s := MachineFor(b, limits, fuel), Opened(b, limits).state;
            Fits(m, s) && RunTells(m, Consume(m, s, x), meaning, g, x)
  {
    hide Represents, GrammarReduction.TerminalsMatch, RunTells, Consume, Earley.Initial, Ample;
    match b
    case WholeDfa(dfa) => DfaTells(dfa, limits, meaning, g, x);
    case LalrBackend(lalr) => LalrTells(lalr, limits, fuel, meaning, g, x);
    case EarleyBackend(earley) => EarleyTells(earley, limits, meaning, g, x);
  }

  // With any fuel, a run that comes to an end is right about what it says.
  lemma BackendSound(b: Backend, limits: RuntimeLimits, fuel: nat, meaning: Meaning, g: Grammar, x: Word)
    requires Represents(b, meaning, g) && GrammarReduction.TerminalsMatch(meaning, g) && Opened(b, limits).Done?
    ensures var m, s := MachineFor(b, limits, fuel), Opened(b, limits).state;
            Fits(m, s) &&
            var r := Consume(m, s, x);
            && (r.Done? ==> (r.value <==> x == [] || Extensible(meaning, g, x)))
            && (r.Done? && r.value && Recognizers.IsAccepting(m, r.state) ==> Accepts(CfgFor(meaning, g), x))
  {
    hide Represents, GrammarReduction.TerminalsMatch, Consume, Earley.Initial, LalrRoom.Ample,
      Recognizers.IsAccepting, Extensible, Accepts, CfgFor, RoomAtEnd, Unshut;
    if b.LalrBackend? {
      LalrSoundRun(b.lalr, limits, fuel, meaning, g, x);
    } else {
      BackendTells(b, limits, fuel, meaning, g, x);
    }
  }

  lemma LalrSoundRun(lalr: Lalr.CompiledLalr, limits: RuntimeLimits, fuel: nat, meaning: Meaning, g: Grammar, x: Word)
    requires Represents(Backend.LalrBackend(lalr), meaning, g) && GrammarReduction.TerminalsMatch(meaning, g)
    ensures var m := MachineFor(Backend.LalrBackend(lalr), limits, fuel);
            var r := Consume(m, LalrAt(LalrDriver.Initial()), x);
            && (r.Done? ==> (r.value <==> x == [] || Extensible(meaning, g, x)))
            && (r.Done? && r.value && Recognizers.IsAccepting(m, r.state) ==> Accepts(CfgFor(meaning, g), x))
  {
    hide LalrBuild.BuiltOver, R.WellFormed, R.Productive, GrammarReduction.TerminalsMatch, GeneratesSome, Consume,
      LalrDriver.StackAccepts, LalrTheorems.Feed, CfgFor, R.AsCfg, Accepts, Extensible, LalrDriver.StackLives,
      LalrRoom.Overflows, LalrRoom.Tight;
    var cf := LalrDriver.Config(lalr, limits, fuel);
    var first, a :| LalrBuild.BuiltOver(lalr, first, a);
    LalrRuns(cf, x);
    var feed := LalrTheorems.Feed(cf, x);
    if GeneratesSome(CfgFor(meaning, g), g.start) {
      assert LalrTheorems.Ready(cf, first, a);
      if feed.Done? {
        LalrTheorems.LalrAliveExactly(cf, first, a, x);
        SameExtensions(lalr.grammar, meaning, g, x);
        SomethingStarts(meaning, g);
        if feed.value && LalrDriver.StackAccepts(cf, feed.state) {
          LalrTheorems.LalrSound(cf, first, a, x);
        }
      }
    } else {
      BarrenTells(cf, first, a, meaning, g, x);
    }
  }

  // For every input some amount of fuel is ample.
  lemma SomeAmple(b: Backend, limits: RuntimeLimits, meaning: Meaning, g: Grammar, x: Word) returns (enough: nat)
    requires Represents(b, meaning, g) && GrammarReduction.TerminalsMatch(meaning, g)
    ensures forall fuel: nat :: fuel >= enough ==> Ample(MachineFor(b, limits, fuel), x)
  {
    hide LalrBuild.BuiltOver, R.WellFormed, R.Productive, LalrRoom.Ample, SameLanguage, GrammarReduction.TerminalsMatch,
      GeneratesSome;
    enough := 0;
    if b.LalrBackend? {
      var cf := LalrDriver.Config(b.lalr, limits, 0);
      var first, a :| LalrBuild.BuiltOver(b.lalr, first, a);
      if GeneratesSome(CfgFor(meaning, g), g.start) {
        assert LalrTheorems.Ready(cf, first, a);
        enough := LalrRoom.SomeAmple(cf, first, a, x);
      }
      forall fuel: nat | fuel >= enough ensures Ample(MachineFor(b, limits, fuel), x) {
        assert MachineFor(b, limits, fuel).lalr == LalrFuel.With(cf, fuel);
        if !GeneratesSome(CfgFor(meaning, g), g.start) {
          BarrenGrammars.BarrenAmple(LalrFuel.With(cf, fuel), first, a, x);
        }
      }
    }
  }

  // Main result: from some amount of fuel on, a run over `x` fails only on a limit; otherwise it is alive exactly when
  // `x` is empty or starts a word of the grammar, and accepting exactly when it is one and the end has room.
  lemma BackendExact(b: Backend, limits: RuntimeLimits, meaning: Meaning, g: Grammar, x: Word) returns (enough: nat)
    requires Represents(b, meaning, g) && GrammarReduction.TerminalsMatch(meaning, g) && Opened(b, limits).Done?
    ensures forall fuel: nat :: fuel >= enough ==>
              var m, s := MachineFor(b, limits, fuel), Opened(b, limits).state;
              Ample(m, x) && Fits(m, s) && RunTells(m, Consume(m, s, x), meaning, g, x)
  {
    hide Represents, GrammarReduction.TerminalsMatch, RunTells, Consume, Earley.Initial, Ample;
    enough := SomeAmple(b, limits, meaning, g, x);
    forall fuel: nat | fuel >= enough
      ensures var m, s := MachineFor(b, limits, fuel), Opened(b, limits).state;
              Ample(m, x) && Fits(m, s) && RunTells(m, Consume(m, s, x), meaning, g, x)
    {
      BackendTells(b, limits, fuel, meaning, g, x);
    }
  }

  // ---------- Choosing a backend ----------

  lemma ReducedStands(meaning: Meaning, g: Grammar, remap: GrammarMaps.Renumbering, h: Grammar)
    requires GrammarReducer.Reduces(meaning, g, remap, h)
    ensures InRange(h) && SameLanguage(CfgFor(meaning, h), meaning, g)
    ensures ResidualBuild.SomeTerminalEmpty(meaning, h) ==> ResidualBuild.SomeTerminalEmpty(meaning, g)
    ensures GrammarReduction.TerminalsMatch(meaning, g) ==> GrammarReduction.TerminalsMatch(meaning, h)
  {
    hide Generates, GrammarReducer.Stands;
    forall t | t in h.terminals ensures t in g.terminals {
      var i: nat :| i < |h.terminals| && h.terminals[i] == t;
    }
  }

  lemma ReducedDerives(meaning: Meaning, g: Grammar, remap: GrammarMaps.Renumbering, h: Grammar)
    requires GrammarReduction.TerminalsMatch(meaning, h) && GrammarReducer.ReducedFully(meaning, g, remap, h)
    ensures if GeneratesSome(CfgFor(meaning, g), g.start) then ResidualBuild.EverythingDerives(meaning, h)
            else h.productions == []
  {
  }

  // What is collapsed from no productions has none.
  lemma CollapsedBarren(meaning: Meaning, h: Grammar, es: Expressions, remap: GrammarMaps.Renumbering,
      residual: R.ResidualGrammar)
    requires ResidualBuild.Collapses(meaning, h, es, remap, residual) && h.productions == []
    ensures residual.productions == []
  {
    hide R.WellFormed, Generates;
    var origins :| ResidualBuild.Collapsing(CfgFor(meaning, h), remap, residual.terminals, origins,
      residual.productions, |h.productions|);
    if residual.productions != [] {
      ResidualBuild.FirstOrigin(CfgFor(meaning, h), remap, residual.terminals, origins, residual.productions, 0);
    }
  }

  // The automaton of the start's expression is the whole language.
  lemma WholeLanguage(meaning: Meaning, h: Grammar, es: Expressions, dfa: T.ByteDfa, g: Grammar)
    requires AllExact(meaning, h, es) && h.start < |es| && es[h.start].Some? && DfaFor(meaning, dfa, es[h.start].value)
    requires SameLanguage(CfgFor(meaning, h), meaning, g)
    ensures Represents(Backend.WholeDfa(dfa), meaning, g)
  {
    hide Denotes;
    assert ExactFor(meaning, h, h.start, es[h.start].value);
    forall w: Word ensures T.Matches(T.Dfa(dfa), w) <==> Accepts(CfgFor(meaning, g), w) {
      assert Accepts(CfgFor(meaning, h), w) <==> Accepts(CfgFor(meaning, g), w);
    }
  }

  // What the stages up to the residual grammar have established about it.
  lemma ResidualStands(meaning: Meaning, g: Grammar, h: Grammar, es: Expressions, remap: GrammarMaps.Renumbering,
      residual: R.ResidualGrammar)
    requires ResidualBuild.Collapses(meaning, h, es, remap, residual) && SameLanguage(CfgFor(meaning, h), meaning, g)
    requires GrammarReduction.TerminalsMatch(meaning, g) ==>
               if GeneratesSome(CfgFor(meaning, g), g.start) then R.Productive(residual) else residual.productions == []
    ensures ResidualFor(residual, meaning, g)
  {
    hide Generates, R.WellFormed, R.Productive, GeneratesSome, GrammarReduction.TerminalsMatch;
    forall w: Word ensures Accepts(R.AsCfg(residual), w) <==> Accepts(CfgFor(meaning, g), w) {
      assert Generates(CfgFor(meaning, h), h.start, w) <==> Generates(R.AsCfg(residual), remap[h.start].value, w);
    }
  }

  // Why a structural backend was not the LALR table, or there is none at all.
  ghost predicate StructuralFails(policy: Policy, residual: R.ResidualGrammar, limits: CompileLimits, e: CompileError) {
    if policy == ForceLalr then
      LalrConflicts.OverLimit(residual, limits, e) || (e == BackendUnavailable("lalr") && NotLalr(residual))
    else (policy == ForceEarley || LalrRefused(residual, limits)) && EarleyOver(limits, e)
  }

  method ChooseStructural(ghost meaning: Meaning, ghost g: Grammar, policy: Policy, residual: R.ResidualGrammar,
      limits: CompileLimits)
    returns (r: Result<Backend>)
    requires R.WellFormed(residual) && ResidualFor(residual, meaning, g)
    ensures r.Ok? ==> Represents(r.value, meaning, g) && !r.value.WholeDfa? && Residual(r.value) == residual
    ensures r.Ok? ==>
            (policy == ForceEarley ==> r.value.EarleyBackend?) && (policy == ForceLalr ==> r.value.LalrBackend?)
    ensures r.Ok? && r.value.EarleyBackend? && policy != ForceEarley ==> LalrRefused(residual, limits)
    ensures r.Ok? && r.value.LalrBackend? ==> !NotLalr(residual)
    ensures r.Err? ==> StructuralFails(policy, residual, limits, r.error)
  {
    hide ResidualFor, R.WellFormed, EarleyChart.WellBuilt, LalrBuild.WellBuilt, LalrConflicts.OverLimit,
      LalrConflicts.HasConflict, LexicalSafety.Safe, LalrConflicts.Reported, LalrBuild.IsUsable, NotLalr,
      EarleyRecognizers.RuleCount, R.AugmentedProductions;
    if policy != ForceEarley {
      var lalr := LalrBuild.Build(residual, limits);
      if lalr.Ok? {
        UsableExactly(lalr.value);
      }
      if policy == ForceLalr {
        if lalr.Err? {
          return Err(lalr.error);
        }
        if !LalrBuild.IsUsable(lalr.value) {
          return Err(BackendUnavailable("lalr"));
        }
      }
      if lalr.Ok? && LalrBuild.IsUsable(lalr.value) {
        return Ok(Backend.LalrBackend(lalr.value));
      }
    }
    var earley := EarleyRecognizers.Build(residual, limits);
    if earley.Err? {
      return Err(earley.error);
    }
    return Ok(Backend.EarleyBackend(earley.value));
  }

  // A table is usable exactly when the grammar has no conflict and its terminals are safe.
  lemma UsableExactly(lalr: Lalr.CompiledLalr)
    requires LalrBuild.WellBuilt(lalr) && (lalr.conflicts == [] <==> !LalrConflicts.HasConflict(lalr.grammar))
    ensures LalrBuild.IsUsable(lalr) <==> !NotLalr(lalr.grammar)
  {
    hide Lalr.AutomatonFor, Lalr.TableSound, Lalr.TableComplete, LalrConflicts.HasConflict, LexicalSafety.Safe;
  }

  // The backend found under the policy: the whole automaton unless the grammar is not certified as regular, the LALR
  // table unless it is refused, and what the policy forces.
  ghost predicate Chosen(policy: Policy, meaning: Meaning, h: Grammar, limits: CompileLimits, b: Backend) {
    match b
    case WholeDfa(_) => policy == Auto || policy == ForceDfa
    case LalrBackend(lalr) =>
      && policy != ForceDfa && policy != ForceEarley && (policy == Auto ==> Unregular(meaning, h))
      && ResidualOf(meaning, h, lalr.grammar) && !NotLalr(lalr.grammar)
    case EarleyBackend(earley) =>
      && policy != ForceDfa && policy != ForceLalr && (policy == Auto ==> Unregular(meaning, h))
      && ResidualOf(meaning, h, earley.grammar) && (policy != ForceEarley ==> LalrRefused(earley.grammar, limits))
  }

  // Why there is no backend: a limit or the library's error, on the way to the residual grammar or to the automaton of
  // the start's expression, no automaton where one is forced, or a structural backend
  // that cannot be built for the residual grammar.
  ghost predicate PrepareFails(policy: Policy, meaning: Meaning, h: Grammar, compile: Compiler,
      grammarLimits: GrammarLimits, limits: CompileLimits, e: CompileError)
  {
    || (exists x :: ExactFor(meaning, h, h.start, x) && CompileFails(compile, x, grammarLimits.maxDfaStates, e))
    || (policy == ForceDfa && e == BackendUnavailable("whole_dfa") && Unregular(meaning, h))
    || (policy != ForceDfa && (policy == Auto ==> Unregular(meaning, h)) &&
        (|| ResidualBuild.ResidualFails(meaning, h, compile, grammarLimits, e)
         || exists residual :: ResidualOf(meaning, h, residual) && StructuralFails(policy, residual, limits, e)))
  }

  // Main result: the backend stands for the grammar that came in and is the one the policy and the reduced grammar ask
  // for, and every error has its cause in them or is due to a terminal that matches the empty word.
  method Prepare(ghost meaning: Meaning, grammar: GrammarReducer.LoweredGrammar, policy: Policy, compile: Compiler,
      grammarLimits: GrammarLimits, limits: CompileLimits)
    returns (r: Result<Backend>)
    requires InRange(grammar.Value()) && CompilesExactly(meaning, compile)
    modifies grammar
    ensures GrammarReducer.ReducedFrom(meaning, old(grammar.Value()), grammar.Value())
    ensures r.Ok? ==> Represents(r.value, meaning, old(grammar.Value()))
    ensures r.Ok? ==> Chosen(policy, meaning, grammar.Value(), limits, r.value)
    ensures r.Err? ==> PrepareFails(policy, meaning, grammar.Value(), compile, grammarLimits, limits, r.error)
                       || (r.error.InternalError?
                           && ResidualBuild.SomeTerminalEmpty(meaning, old(grammar.Value())))
  {
    hide Represents, InRange, CompilesExactly, ResidualBuild.SomeTerminalEmpty, ResidualFor,
      GeneratesSome, ResidualBuild.ResidualFails, Unregular, StructuralFails, LalrRefused, NotLalr, ExactFor;
    hide GrammarReducer.Reduces, GrammarReducer.ReducedFully, SameLanguage, Partitions, StronglyConnected,
      MarkedRecursive, RC.OutcomesFor, AllExact;
    hide ResidualBuild.Collapses, ResidualBuild.EverythingDerives, R.Productive, R.WellFormed,
      GrammarReduction.TerminalsMatch, DfaFor, CompileFails;
    ghost var g := grammar.Value();
    var stats, remap := grammar.Reduce(meaning);
    var h := grammar.Value();
    assert GrammarReducer.ReducedFrom(meaning, g, h);
    ReducedStands(meaning, g, remap, h);
    var sccs := Sccs.AnalyzeSccs(h);
    var outcomes, es := RC.CertifyRegular(meaning, h, sccs);
    ResidualBuild.StartInRange(h);
    ResidualBuild.ExpressionsSize(meaning, h, es);
    var whole: Option<T.ByteDfa> := None;
    if es[h.start].Some? {
      var compiled := CompileByteDfa(meaning, compile, grammarLimits.maxDfaStates, es[h.start].value);
      if compiled.Err? {
        ExpressionExact(meaning, h, es, h.start);
        return Err(compiled.error);
      }
      WholeLanguage(meaning, h, es, compiled.value, g);
      whole := Some(compiled.value);
    } else {
      StartRefused(meaning, h, sccs, outcomes, es);
    }
    if policy == ForceDfa && whole.None? {
      return Err(BackendUnavailable("whole_dfa"));
    }
    if whole.Some? && (policy == Auto || policy == ForceDfa) {
      return Ok(Backend.WholeDfa(whole.value));
    }
    var residual, kept := ResidualBuild.BuildResidual(meaning, h, sccs, outcomes, es, compile, grammarLimits);
    if residual.Err? {
      return Err(residual.error);
    }
    if GrammarReduction.TerminalsMatch(meaning, g) {
      ReducedDerives(meaning, g, remap, h);
      if !GeneratesSome(CfgFor(meaning, g), g.start) {
        CollapsedBarren(meaning, h, es, kept, residual.value);
      }
    }
    ResidualStands(meaning, g, h, es, kept, residual.value);
    ResidualWellFormed(residual.value, meaning, g);
    assert ResidualOf(meaning, h, residual.value);
    r := ChooseStructural(meaning, g, policy, residual.value, limits);
  }

  // A backend is called unavailable only when it is forced and there is none.
  lemma UnavailableFor(policy: Policy, meaning: Meaning, h: Grammar, compile: Compiler, grammarLimits: GrammarLimits,
      limits: CompileLimits, backend: string)
    requires CompilesExactly(meaning, compile)
    requires PrepareFails(policy, meaning, h, compile, grammarLimits, limits, BackendUnavailable(backend))
    ensures || (policy == ForceDfa && backend == "whole_dfa" && Unregular(meaning, h))
            || (policy == ForceLalr && backend == "lalr"
                && exists residual :: ResidualOf(meaning, h, residual) && NotLalr(residual))
  {
    hide Unregular, ResidualOf, NotLalr, ExactFor, AllExact, LalrRefused, ResidualBuild.Keeps,
      ResidualBuild.FromGrammar;
    assert !ResidualBuild.ResidualFails(meaning, h, compile, grammarLimits, BackendUnavailable(backend));
  }

  lemma ExpressionExact(meaning: Meaning, h: Grammar, es: Expressions, a: nat)
    requires AllExact(meaning, h, es) && a < |es| && es[a].Some?
    ensures ExactFor(meaning, h, a, es[a].value)
  {
  }

  lemma ResidualWellFormed(residual: R.ResidualGrammar, meaning: Meaning, g: Grammar)
    requires ResidualFor(residual, meaning, g)
    ensures R.WellFormed(residual)
  {
  }
}
