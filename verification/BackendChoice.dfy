/**
 Which backend is chosen, and why not another: said of the reduced grammar and of the residual grammar made from it.
 */
module BackendChoices {
  import opened Grammars
  import opened CompileErrors
  import opened RegularExpressions
  import opened SchemaGrammars
  import opened Certification
  import RC = RegularCertificates
  import R = ResidualGrammars
  import GrammarMaps
  import ResidualBuild
  import LalrConflicts
  import LexicalSafety

  // ---------- Why there is no automaton for the whole grammar ----------

  // A component that the start reaches is recursive, not right-linear, and either not left-linear or held up by a
  // symbol that cannot be reversed.
  ghost predicate UnregularAt(meaning: Meaning, g: Grammar, analysis: SccAnalysis, es: Expressions, c: nat) {
    && Partitions(g, analysis) && StronglyConnected(g, analysis) && MarkedRecursive(g, analysis)
    && AllExact(meaning, g, es)
    && c < |analysis.components| && RC.NotRegularHere(g, analysis, c, es)
    && exists a: nat :: a in analysis.components[c].members && Reaches(g, g.start, a)
  }

  ghost predicate Unregular(meaning: Meaning, g: Grammar) {
    exists analysis, es, c: nat :: UnregularAt(meaning, g, analysis, es, c)
  }

  lemma ExternalReaches(g: Grammar, analysis: SccAnalysis, c: nat, d: nat)
    requires InRange(g) && Partitions(g, analysis) && StronglyConnected(g, analysis)
    requires c < |analysis.components| && d < |analysis.components| && RC.ExternalOn(g, analysis, c, d)
    ensures Reaches(g, analysis.components[c].members[0], analysis.components[d].members[0])
  {
    hide Reaches;
    var a, b := analysis.components[c].members[0], analysis.components[d].members[0];
    assert a in analysis.components[c].members && b in analysis.components[d].members;
    var p: nat :| p < |g.productions| && RC.ExternalVia(g, analysis, c, d, p);
    var y: nat :| Nonterminal(y) in g.productions[p].rhs && InComponent(analysis, d, Nonterminal(y));
    var x := g.productions[p].lhs;
    assert analysis.componentOf[x] == analysis.componentOf[a] && analysis.componentOf[y] == analysis.componentOf[b];
    ReachesStep(g, x, y);
    ReachesTransitive(g, a, x, y);
    ReachesTransitive(g, a, y, b);
  }

  // A refusal goes back to a component that is refused for itself.
  lemma {:induction false} RefusedBelow(g: Grammar, analysis: SccAnalysis, outcomes: RC.Outcomes, es: Expressions,
      c: nat) returns (k: nat)
    requires InRange(g) && Partitions(g, analysis) && StronglyConnected(g, analysis)
    requires RC.OutcomesFor(g, analysis, outcomes, es) && c < |analysis.components| && RC.Refused(outcomes, c)
    ensures k < |analysis.components| && RC.NotRegularHere(g, analysis, k, es)
    ensures analysis.components[c].members != [] && analysis.components[k].members != []
    ensures Reaches(g, analysis.components[c].members[0], analysis.components[k].members[0])
    decreases RC.ReachSet(g, analysis.components[c].members[0])
  {
    hide Reaches, RC.NotRegularHere, RC.ExternalOn, RC.ReachSet, StronglyConnected, InRange;
    assert RC.Justified(g, analysis, outcomes, es, c);
    if RC.NotRegularHere(g, analysis, c, es) {
      k := c;
      ReachesItself(g, analysis.components[c].members[0]);
    } else {
      var d: nat :| RC.ExternalOn(g, analysis, c, d) && RC.Refused(outcomes, d);
      RC.SmallerReach(g, analysis, c, d);
      ExternalReaches(g, analysis, c, d);
      k := RefusedBelow(g, analysis, outcomes, es, d);
      ReachesTransitive(g, analysis.components[c].members[0], analysis.components[d].members[0],
        analysis.components[k].members[0]);
    }
  }

  // Without an expression for the start the grammar is not certified as regular, and for such a component.
  lemma StartRefused(meaning: Meaning, g: Grammar, analysis: SccAnalysis, outcomes: RC.Outcomes, es: Expressions)
    requires InRange(g) && Partitions(g, analysis) && StronglyConnected(g, analysis) && MarkedRecursive(g, analysis)
    requires AllExact(meaning, g, es) && RC.OutcomesFor(g, analysis, outcomes, es)
    requires g.start < |es| && es[g.start].None?
    requires forall c: nat :: c < |outcomes| ==> outcomes[c].Some?
    ensures Unregular(meaning, g)
  {
    hide RC.NotRegularHere, RC.Justified, AllExact, MarkedRecursive, Reaches, InRange;
    var c := analysis.componentOf[g.start];
    assert RC.Refused(outcomes, c);
    var k := RefusedBelow(g, analysis, outcomes, es, c);
    var first := analysis.components[c].members[0];
    assert first in analysis.components[c].members && g.start in analysis.components[c].members;
    assert Reaches(g, g.start, first);
    ReachesTransitive(g, g.start, first, analysis.components[k].members[0]);
    assert analysis.components[k].members[0] in analysis.components[k].members;
    assert UnregularAt(meaning, g, analysis, es, k);
  }

  // ---------- Why there is no LALR table ----------

  // The residual grammar of a grammar: what collapsing its certified parts leaves.
  ghost predicate ResidualOf(meaning: Meaning, g: Grammar, residual: R.ResidualGrammar) {
    exists es, remap: GrammarMaps.Renumbering ::
      AllExact(meaning, g, es) && ResidualBuild.Collapses(meaning, g, es, remap, residual)
  }

  // A conflict, or terminals that do not tell apart when a word of theirs ends.
  ghost predicate NotLalr(residual: R.ResidualGrammar) {
    LalrConflicts.HasConflict(residual) || !LexicalSafety.Safe(residual.terminals)
  }

  // The table cannot be used, or its construction goes over a limit.
  ghost predicate LalrRefused(residual: R.ResidualGrammar, limits: CompileLimits) {
    NotLalr(residual) || exists e :: LalrConflicts.OverLimit(residual, limits, e)
  }

  // A limit on the dotted rules, and more of them than it allows.
  ghost predicate EarleyOver(limits: CompileLimits, e: CompileError) {
    && e.ResourceLimitExceeded? && e.stage == EarleyPreparation && e.observed > e.limit
    && (e.limit == limits.maxLrItems || e.limit == 0xFFFF_FFFF)
  }
}
