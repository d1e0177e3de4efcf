/**
 The certification of every component, dependencies first.  A certificate is exact, the loop over the
 components always makes progress, and reversing a left-linear solution back never fails.
 */
module RegularCertificates {
  import opened Grammars
  import opened RegularExpressions
  import opened Reversals
  import opened Kleene
  import opened SchemaGrammars
  import opened Certification
  import opened LinearComponents

  // ---------- The edge matrix ----------

  lemma {:induction false} EdgeWordMore(cfg: Cfg, analysis: SccAnalysis, c: nat, reversed: bool, p: nat, a: nat,
      target: Option<nat>, w: Word)
    ensures EdgeWord(cfg, analysis, c, reversed, p + 1, a, target, w) <==>
              EdgeWord(cfg, analysis, c, reversed, p, a, target, w)
                || EdgeWordVia(cfg, analysis, c, reversed, p, a, target, w)
  {
    hide EdgeWordVia;
    if EdgeWord(cfg, analysis, c, reversed, p, a, target, w) {
      var q: nat :| q < p && EdgeWordVia(cfg, analysis, c, reversed, q, a, target, w);
      assert q < p + 1;
    }
  }

  // A production of another nonterminal changes no entry; one of this member changes the entry of its target.
  lemma RowMore(meaning: Meaning, g: Grammar, analysis: SccAnalysis, c: nat, reversed: bool, members: seq<nat>, s: nat,
      row: seq<RegularExpression>, p: nat, target: nat, edge: RegularExpression)
    requires s < |members| && p < |g.productions| && target <= |members|
    requires RowFor(meaning, g, analysis, c, reversed, members, s, row, p) && g.productions[p].lhs == members[s]
    requires TargetOf(members, target) == EdgeTarget(analysis, c, g.productions[p].rhs)
    requires forall i, j :: 0 <= i < j < |members| ==> members[i] < members[j]
    requires forall w: Word :: Denotes(ReadingFor(meaning, reversed), edge, w) <==>
               Derives(CfgFor(meaning, g), EdgeAtoms(analysis, c, g.productions[p].rhs, reversed),
                 Oriented(reversed, w))
    ensures RowFor(meaning, g, analysis, c, reversed, members, s, row[target := UnionOf([row[target], edge])], p + 1)
  {
    hide ReadingFor, Denotes, Derives, EdgeTarget, EdgeAtoms, Oriented;
    var next := row[target := UnionOf([row[target], edge])];
    forall t: nat | t <= |members|
      ensures EntryFor(meaning, g, analysis, c, reversed, members, s, t, next[t], p + 1)
    {
      assert EntryFor(meaning, g, analysis, c, reversed, members, s, t, row[t], p);
      forall w: Word
        ensures Denotes(ReadingFor(meaning, reversed), next[t], w) <==>
                  EdgeWord(CfgFor(meaning, g), analysis, c, reversed, p + 1, members[s], TargetOf(members, t), w)
      {
        EdgeWordMore(CfgFor(meaning, g), analysis, c, reversed, p, members[s], TargetOf(members, t), w);
        TwoBranches(ReadingFor(meaning, reversed), row[target], edge, w);
        SameTarget(members, t, target);
      }
    }
  }

  lemma SameTarget(members: seq<nat>, t: nat, target: nat)
    requires t <= |members| && target <= |members| && forall i, j :: 0 <= i < j < |members| ==> members[i] < members[j]
    ensures TargetOf(members, t) == TargetOf(members, target) <==> t == target
  {
  }

  lemma RowSame(meaning: Meaning, g: Grammar, analysis: SccAnalysis, c: nat, reversed: bool, members: seq<nat>, s: nat,
      row: seq<RegularExpression>, p: nat)
    requires s < |members| && p < |g.productions| && g.productions[p].lhs != members[s]
    requires RowFor(meaning, g, analysis, c, reversed, members, s, row, p)
    ensures RowFor(meaning, g, analysis, c, reversed, members, s, row, p + 1)
  {
    hide ReadingFor, Denotes, Derives, EdgeTarget, EdgeAtoms, Oriented;
    forall t: nat | t <= |members| ensures EntryFor(meaning, g, analysis, c, reversed, members, s, t, row[t], p + 1) {
      assert EntryFor(meaning, g, analysis, c, reversed, members, s, t, row[t], p);
      forall w: Word
        ensures Denotes(ReadingFor(meaning, reversed), row[t], w) <==>
                  EdgeWord(CfgFor(meaning, g), analysis, c, reversed, p + 1, members[s], TargetOf(members, t), w)
      {
        EdgeWordMore(CfgFor(meaning, g), analysis, c, reversed, p, members[s], TargetOf(members, t), w);
      }
    }
  }

  function EmptyRow(n: nat): seq<RegularExpression> {
    seq(n, _ => Empty)
  }

  lemma EmptyRowFor(meaning: Meaning, g: Grammar, analysis: SccAnalysis, c: nat, reversed: bool, members: seq<nat>,
      s: nat)
    requires s < |members|
    ensures RowFor(meaning, g, analysis, c, reversed, members, s, EmptyRow(|members| + 1), 0)
  {
  }

  // What a component is to certification: its members in order, and nothing else in it.
  ghost predicate IsComponent(analysis: SccAnalysis, c: nat, members: seq<nat>) {
    && members != []
    && (forall a: nat :: a in members <==> InComponent(analysis, c, Nonterminal(a)))
    && (forall i, j :: 0 <= i < j < |members| ==> members[i] < members[j])
  }

  // Every dependency outside the component has its expression.
  ghost predicate DependenciesReady(g: Grammar, analysis: SccAnalysis, c: nat, es: Expressions) {
    |es| == g.nonterminals &&
    forall p: nat, a: nat {:trigger Nonterminal(a) in g.productions[p].rhs} ::
      (p < |g.productions| && InComponent(analysis, c, Nonterminal(g.productions[p].lhs))
        && Nonterminal(a) in g.productions[p].rhs
       && !InComponent(analysis, c, Nonterminal(a))) ==> a < |es| && es[a].Some?
  }

  // Some symbol outside the component, in a production of it, cannot be reversed.
  ghost predicate Irreversible(g: Grammar, analysis: SccAnalysis, c: nat, es: Expressions) {
    |es| == g.nonterminals &&
    exists p: nat, s ::
      p < |g.productions| && InComponent(analysis, c, Nonterminal(g.productions[p].lhs)) && s in g.productions[p].rhs
      && CannotReverse(g, analysis, c, es, s)
  }

  ghost predicate CannotReverse(g: Grammar, analysis: SccAnalysis, c: nat, es: Expressions, s: Symbol)
    requires |es| == g.nonterminals
  {
    SymbolInRange(s, g.nonterminals, |g.terminals|) && PartFor(g, analysis, c, es, s).Certified?
    && !Reversible(PartFor(g, analysis, c, es, s).value)
  }

  // With its dependencies ready, the atoms of a linear production can only fail to be reversed.
  lemma OnlyIrreversible(g: Grammar, analysis: SccAnalysis, c: nat, es: Expressions, reversed: bool, p: nat,
      r: Attempt<RegularExpression>)
    requires InRange(g) && DependenciesReady(g, analysis, c, es) && p < |g.productions|
    requires InComponent(analysis, c, Nonterminal(g.productions[p].lhs))
    requires OneEnd(analysis, c, g.productions[p].rhs, reversed)
    requires r.Uncertified?
    requires forall s <- EdgeAtoms(analysis, c, g.productions[p].rhs, reversed) ::
               SymbolInRange(s, g.nonterminals, |g.terminals|)
    requires exists s <- EdgeAtoms(analysis, c, g.productions[p].rhs, reversed) ::
               Turned(reversed, PartFor(g, analysis, c, es, s)) == r
    ensures reversed && Irreversible(g, analysis, c, es)
  {
    var rhs := g.productions[p].rhs;
    var atoms := EdgeAtoms(analysis, c, rhs, reversed);
    var s :| s in atoms && Turned(reversed, PartFor(g, analysis, c, es, s)) == r;
    AtomsOutside(analysis, c, rhs, reversed, s);
    if PartFor(g, analysis, c, es, s).Certified? {
      ReversedIff(PartFor(g, analysis, c, es, s).value);
      assert CannotReverse(g, analysis, c, es, s);
    }
  }

  lemma AtomsOutside(analysis: SccAnalysis, c: nat, rhs: seq<Symbol>, reversed: bool, s: Symbol)
    requires OneEnd(analysis, c, rhs, reversed) && s in EdgeAtoms(analysis, c, rhs, reversed)
    ensures s in rhs && !InComponent(analysis, c, s)
  {
    var i := RecursiveAt(analysis, c, rhs);
    var atoms := EdgeAtoms(analysis, c, rhs, reversed);
    var k :| 0 <= k < |atoms| && atoms[k] == s;
    if i.Some? {
      assert InComponent(analysis, c, rhs[i.value]);
      assert s == rhs[if reversed then i.value + 1 + k else k];
    }
  }

  method IndexOf(members: seq<nat>, a: nat) returns (i: nat)
    requires a in members
    ensures i < |members| && members[i] == a
  {
    i := 0;
    while members[i] != a
      invariant i < |members| && a in members[i..]
      decreases |members| - i
    {
      assert members[i..] == [members[i]] + members[i + 1..];
      i := i + 1;
    }
  }

  // The row of one member: the union of the labels of its productions, by target.
  method BuildRow(ghost meaning: Meaning, g: Grammar, analysis: SccAnalysis, c: nat, members: seq<nat>,
      es: Expressions, reversed: bool, s: nat)
    returns (r: Attempt<seq<RegularExpression>>)
    requires InRange(g) && AllExact(meaning, g, es)
    requires IsComponent(analysis, c, members) && s < |members| && LinearIn(g, analysis, c, reversed)
    ensures r.Certified? ==> RowFor(meaning, g, analysis, c, reversed, members, s, r.value, |g.productions|)
    ensures r.Certified? ==> (forall e <- r.value :: reversed ==> Reversible(e))
    ensures r.Uncertified? && DependenciesReady(g, analysis, c, es) ==> reversed && Irreversible(g, analysis, c, es)
  {
    hide DependenciesReady, Irreversible, PartFor, ReadingFor;
    hide RowFor, Denotes, Derives, Oriented, InComponent, EdgeTarget, EdgeAtoms, Reversible, AllExact, OneEnd;
    var row := EmptyRow(|members| + 1);
    EmptyRowFor(meaning, g, analysis, c, reversed, members, s);
    EmptyRowReversible(|members| + 1);
    for p := 0 to |g.productions|
      invariant |row| == |members| + 1 && RowFor(meaning, g, analysis, c, reversed, members, s, row, p)
      invariant forall e <- row :: reversed ==> Reversible(e)
    {
      if g.productions[p].lhs == members[s] {
        var rhs := g.productions[p].rhs;
        ProductionKnown(g, p);
        assert OneEnd(analysis, c, rhs, reversed) by { assert members[s] in members; }
        var target := |members|;
        if EdgeTarget(analysis, c, rhs).Some? {
          RhsParts(analysis, c, rhs, reversed);
          target := IndexOf(members, EdgeTarget(analysis, c, rhs).value);
        }
        AtomsKnown(g, analysis, c, rhs, reversed);
        var edge := RhsExpression(meaning, g, analysis, c, EdgeAtoms(analysis, c, rhs, reversed), es, reversed);
        if edge.Uncertified? {
          if DependenciesReady(g, analysis, c, es) {
            assert InComponent(analysis, c, Nonterminal(g.productions[p].lhs)) by { assert members[s] in members; }
            OnlyIrreversible(g, analysis, c, es, reversed, p, edge);
          }
          return Uncertified(edge.reason);
        }
        TargetFound(analysis, c, rhs, members, target);
        RowMore(meaning, g, analysis, c, reversed, members, s, row, p, target, edge.value);
        UnionOfTwoReversible(reversed, row[target], edge.value);
        row := row[target := UnionOf([row[target], edge.value])];
      } else {
        RowSame(meaning, g, analysis, c, reversed, members, s, row, p);
      }
    }
    r := Certified(row);
  }

  lemma TargetFound(analysis: SccAnalysis, c: nat, rhs: seq<Symbol>, members: seq<nat>, target: nat)
    requires match EdgeTarget(analysis, c, rhs)
             case None => target == |members|
             case Some(n) => target < |members| && members[target] == n
    ensures TargetOf(members, target) == EdgeTarget(analysis, c, rhs)
  {
  }

  lemma EmptyRowReversible(n: nat)
    ensures forall e <- EmptyRow(n) :: Reversible(e)
  {
  }

  lemma AtomsKnown(g: Grammar, analysis: SccAnalysis, c: nat, rhs: seq<Symbol>, reversed: bool)
    requires forall s <- rhs :: SymbolInRange(s, g.nonterminals, |g.terminals|)
    ensures forall s <- EdgeAtoms(analysis, c, rhs, reversed) :: SymbolInRange(s, g.nonterminals, |g.terminals|)
  {
    assert forall s <- EdgeAtoms(analysis, c, rhs, reversed) :: s in rhs;
  }

  lemma UnionOfTwoReversible(reversed: bool, a: RegularExpression, b: RegularExpression)
    requires reversed ==> Reversible(a) && Reversible(b)
    ensures reversed ==> Reversible(UnionOf([a, b]))
  {
    hide Reversible, UnionOf;
    if reversed {
      UnionOfReversible([a, b]);
    }
  }

  // ---------- Solving one component ----------

  ghost predicate EachReversibleIf(reversed: bool, es: seq<RegularExpression>) {
    forall e <- es :: reversed ==> Reversible(e)
  }

  // Entry `s` denotes, oriented, what member `s` derives.
  ghost predicate SolutionFor(meaning: Meaning, g: Grammar, reversed: bool, members: seq<nat>,
      solved: seq<RegularExpression>)
  {
    |solved| == |members| && EachReversibleIf(reversed, solved)
    && forall s: nat, w: Word {:trigger Denotes(ReadingFor(meaning, reversed), solved[s], w)} :: s < |members| ==>
         (Denotes(ReadingFor(meaning, reversed), solved[s], w) <==>
           Generates(CfgFor(meaning, g), members[s], Oriented(reversed, w)))
  }

  lemma EdgesComplete(meaning: Meaning, g: Grammar, analysis: SccAnalysis, c: nat, reversed: bool, members: seq<nat>,
      rows: Matrix)
    requires |rows| == |members|
    requires forall s: nat :: s < |members| ==>
               RowFor(meaning, g, analysis, c, reversed, members, s, rows[s], |g.productions|)
    requires forall row <- rows :: EachReversibleIf(reversed, row)
    ensures EdgesFor(meaning, g, analysis, c, reversed, members, rows + [EmptyRow(|members| + 1)])
    ensures reversed ==> ReversibleMatrix(rows + [EmptyRow(|members| + 1)])
  {
    hide EntryFor, Reversible;
    EmptyRowReversible(|members| + 1);
    var m := rows + [EmptyRow(|members| + 1)];
    forall s: nat | s < |members| ensures RowFor(meaning, g, analysis, c, reversed, members, s, m[s], |g.productions|) {
      assert m[s] == rows[s];
    }
    assert Square(m, |members| + 1);
    assert forall row <- m :: row in rows || row == EmptyRow(|members| + 1);
  }

  // Solve a linear component by elimination; the last state is the end.
  method SolveLinearComponent(ghost meaning: Meaning, g: Grammar, analysis: SccAnalysis, c: nat, members: seq<nat>,
      es: Expressions, reversed: bool)
    returns (r: Attempt<seq<RegularExpression>>)
    requires InRange(g) && AllExact(meaning, g, es)
    requires IsComponent(analysis, c, members) && LinearIn(g, analysis, c, reversed)
    ensures r.Certified? ==> SolutionFor(meaning, g, reversed, members, r.value)
    ensures r.Uncertified? && DependenciesReady(g, analysis, c, es) ==> reversed && Irreversible(g, analysis, c, es)
  {
    hide DependenciesReady, Irreversible;
    hide RowFor, Reversible, AllExact, LinearIn, SolvedUpto, ReversibleMatrix, EdgesFor;
    var rows: Matrix := [];
    for s := 0 to |members|
      invariant |rows| == s
      invariant forall k: nat :: k < s ==>
                  RowFor(meaning, g, analysis, c, reversed, members, k, rows[k], |g.productions|)
      invariant forall row <- rows :: EachReversibleIf(reversed, row)
    {
      var row := BuildRow(meaning, g, analysis, c, members, es, reversed, s);
      if row.Uncertified? {
        return Uncertified(row.reason);
      }
      rows := rows + [row.value];
    }
    EdgesComplete(meaning, g, analysis, c, reversed, members, rows);
    var edges := rows + [EmptyRow(|members| + 1)];
    EdgesSquare(meaning, g, analysis, c, reversed, members, edges);
    var solved := Eliminate(ReadingFor(meaning, reversed), edges, |members|);
    var final := seq(|members|, s requires 0 <= s < |members| => solved[s][|members|]);
    FinalReversible(reversed, members, solved, final);
    SolutionFound(meaning, g, analysis, c, reversed, members, edges, solved, final);
    r := Certified(final);
  }

  lemma FinalReversible(reversed: bool, members: seq<nat>, solved: Matrix, final: seq<RegularExpression>)
    requires Square(solved, |solved|) && |solved| == |members| + 1
    requires reversed ==> ReversibleMatrix(solved)
    requires |final| == |members| && forall s: nat :: s < |members| ==> final[s] == solved[s][|members|]
    ensures EachReversibleIf(reversed, final)
  {
    hide Reversible;
    forall e <- final ensures reversed ==> Reversible(e) {
      var s :| 0 <= s < |final| && final[s] == e;
      assert solved[s] in solved && e in solved[s];
    }
  }

  lemma SolutionFound(meaning: Meaning, g: Grammar, analysis: SccAnalysis, c: nat, reversed: bool, members: seq<nat>,
      edges: Matrix, solved: Matrix, final: seq<RegularExpression>)
    requires EdgesFor(meaning, g, analysis, c, reversed, members, edges) && LinearIn(g, analysis, c, reversed)
    requires IsComponent(analysis, c, members) && Square(edges, |edges|) && Square(solved, |edges|)
    requires |edges| == |members| + 1
    requires SolvedUpto(ReadingFor(meaning, reversed), edges, solved, |members|)
    requires reversed ==> ReversibleMatrix(solved)
    requires EachReversibleIf(reversed, final)
    requires |final| == |members| && forall s: nat :: s < |members| ==> final[s] == solved[s][|members|]
    ensures SolutionFor(meaning, g, reversed, members, final)
  {
    hide EdgesFor, LinearIn, Walks, Reversible, EachReversibleIf;
    forall s: nat, w: Word | s < |members|
      ensures Denotes(ReadingFor(meaning, reversed), final[s], w) <==>
              Generates(CfgFor(meaning, g), members[s], Oriented(reversed, w))
    {
      assert EntrySolved(ReadingFor(meaning, reversed), edges, solved[s][|members|], |members|, s, |members|);
      LinearSolved(meaning, g, analysis, c, reversed, members, edges, s, w);
    }
  }

  // ---------- Certifying one component ----------

  lemma GeneratesBy(cfg: Cfg, a: nat, w: Word)
    ensures Generates(cfg, a, w) <==>
            exists p: nat ::
            p < |cfg.productions| && cfg.productions[p].lhs == a && Derives(cfg, cfg.productions[p].rhs, w)
  {
    if Generates(cfg, a, w) {
      var t: Tree :| TreeFor(cfg, t, Nonterminal(a)) && Yield(t) == w;
      assert ForestFor(cfg, t.kids, cfg.productions[t.production].rhs) && ForestYield(t.kids) == w;
    }
    if p: nat :| p < |cfg.productions| && cfg.productions[p].lhs == a && Derives(cfg, cfg.productions[p].rhs, w) {
      DerivesProduction(cfg, p, w);
    }
  }

  // The branches denote what the first `upto` productions of `a` derive.
  ghost predicate BranchesFor(meaning: Meaning, g: Grammar, a: nat, branches: seq<RegularExpression>, upto: nat)
    requires upto <= |g.productions|
  {
    forall w: Word :: DenotesAny(Forwards(meaning), branches, w) <==> ByUpto(CfgFor(meaning, g), a, upto, w)
  }

  ghost predicate ByUpto(cfg: Cfg, a: nat, upto: nat, w: Word)
    requires upto <= |cfg.productions|
  {
    exists p: nat :: p < upto && cfg.productions[p].lhs == a && Derives(cfg, cfg.productions[p].rhs, w)
  }

  lemma BranchesMore(meaning: Meaning, g: Grammar, a: nat, branches: seq<RegularExpression>, p: nat,
      e: RegularExpression)
    requires p < |g.productions| && g.productions[p].lhs == a && BranchesFor(meaning, g, a, branches, p)
    requires forall w: Word :: Denotes(Forwards(meaning), e, w) <==>
               Derives(CfgFor(meaning, g), g.productions[p].rhs, w)
    ensures BranchesFor(meaning, g, a, branches + [e], p + 1)
  {
    hide Denotes, Derives;
    forall w: Word
      ensures DenotesAny(Forwards(meaning), branches + [e], w) <==> ByUpto(CfgFor(meaning, g), a, p + 1, w)
    {
      assert forall b :: b in branches + [e] <==> b in branches || b == e;
      assert DenotesAny(Forwards(meaning), branches + [e], w) <==>
        DenotesAny(Forwards(meaning), branches, w) || Denotes(Forwards(meaning), e, w);
    }
  }

  lemma BranchesSame(meaning: Meaning, g: Grammar, a: nat, branches: seq<RegularExpression>, p: nat)
    requires p < |g.productions| && g.productions[p].lhs != a && BranchesFor(meaning, g, a, branches, p)
    ensures BranchesFor(meaning, g, a, branches, p + 1)
  {
    hide Denotes, Derives;
    forall w: Word ensures DenotesAny(Forwards(meaning), branches, w) <==> ByUpto(CfgFor(meaning, g), a, p + 1, w) {
      assert ByUpto(CfgFor(meaning, g), a, p, w) <==> ByUpto(CfgFor(meaning, g), a, p + 1, w);
    }
  }

  // A nonterminal outside every cycle: the union of its right-hand sides.
  method CertifyAcyclic(ghost meaning: Meaning, g: Grammar, analysis: SccAnalysis, c: nat, member: nat, es: Expressions)
    returns (r: Attempt<RegularExpression>)
    requires InRange(g) && AllExact(meaning, g, es)
    ensures r.Certified? ==> ExactFor(meaning, g, member, r.value)
    ensures r.Uncertified? && InComponent(analysis, c, Nonterminal(member)) && DependenciesReady(g, analysis, c, es) ==>
              exists p: nat, s ::
                p < |g.productions| && g.productions[p].lhs == member && s in g.productions[p].rhs
                && InComponent(analysis, c, s)
  {
    hide Denotes, Derives, AllExact, BranchesFor;
    var branches: seq<RegularExpression> := [];
    NoBranches(meaning, g, member);
    for p := 0 to |g.productions|
      invariant BranchesFor(meaning, g, member, branches, p)
    {
      if g.productions[p].lhs == member {
        ProductionKnown(g, p);
        var branch := RhsExpression(meaning, g, analysis, c, g.productions[p].rhs, es, false);
        if branch.Uncertified? {
          if DependenciesReady(g, analysis, c, es) && InComponent(analysis, c, Nonterminal(member)) {
            var s :| s in g.productions[p].rhs && Turned(false, PartFor(g, analysis, c, es, s)) == branch;
            assert InComponent(analysis, c, s);
          }
          return Uncertified(branch.reason);
        }
        assert ReadingFor(meaning, false) == Forwards(meaning);
        BranchesMore(meaning, g, member, branches, p, branch.value);
        branches := branches + [branch.value];
      } else {
        BranchesSame(meaning, g, member, branches, p);
      }
    }
    BranchesExact(meaning, g, member, branches);
    r := Certified(UnionOf(branches));
  }

  lemma NoBranches(meaning: Meaning, g: Grammar, a: nat)
    ensures BranchesFor(meaning, g, a, [], 0)
  {
  }

  lemma BranchesExact(meaning: Meaning, g: Grammar, a: nat, branches: seq<RegularExpression>)
    requires BranchesFor(meaning, g, a, branches, |g.productions|)
    ensures ExactFor(meaning, g, a, UnionOf(branches))
  {
    hide Denotes, Derives, Generates, UnionOf;
    forall w: Word ensures Denotes(Forwards(meaning), UnionOf(branches), w) <==> Generates(CfgFor(meaning, g), a, w) {
      UnionOfDenotes(Forwards(meaning), branches, w);
      GeneratesBy(CfgFor(meaning, g), a, w);
    }
  }

  lemma ComponentMembers(g: Grammar, analysis: SccAnalysis, c: nat)
    requires Partitions(g, analysis) && c < |analysis.components|
    ensures IsComponent(analysis, c, analysis.components[c].members)
  {
    var members := analysis.components[c].members;
    forall a: nat ensures a in members <==> InComponent(analysis, c, Nonterminal(a)) {
      assert a in analysis.components[c].members <==> a < g.nonterminals && analysis.componentOf[a] == c;
    }
  }

  // The component's members have their expressions, and no other nonterminal is touched.
  ghost predicate Filled(analysis: SccAnalysis, c: nat, es: Expressions, es': Expressions) {
    |es'| == |es|
      && forall a: nat :: a < |es| ==>
           if InComponent(analysis, c, Nonterminal(a)) then es'[a].Some? else es'[a] == es[a]
  }

  // When a component cannot be certified.
  ghost predicate NotRegularHere(g: Grammar, analysis: SccAnalysis, c: nat, es: Expressions)
    requires c < |analysis.components|
  {
    analysis.components[c].recursive && !LinearIn(g, analysis, c, false)
    && (!LinearIn(g, analysis, c, true) || Irreversible(g, analysis, c, es))
  }

  method CertifyComponent(ghost meaning: Meaning, g: Grammar, analysis: SccAnalysis, c: nat, es: Expressions)
    returns (r: Attempt<CertificateKind>, es': Expressions)
    requires InRange(g) && AllExact(meaning, g, es)
    requires Partitions(g, analysis) && MarkedRecursive(g, analysis) && c < |analysis.components|
    ensures r.Certified? ==> AllExact(meaning, g, es') && Filled(analysis, c, es, es')
    ensures r.Uncertified? ==> es' == es
    ensures r.Uncertified? && DependenciesReady(g, analysis, c, es) ==> NotRegularHere(g, analysis, c, es)
  {
    hide Partitions, MarkedRecursive, AllExact, DependenciesReady, Irreversible, LinearIn, SolutionFor, ExactFor,
      IsComponent, InComponent;
    var component := analysis.components[c];
    ComponentMembers(g, analysis, c);
    ComponentShape(g, analysis, c);
    es' := es;
    if !component.recursive {
      var member := component.members[0];
      var solved := CertifyAcyclic(meaning, g, analysis, c, member, es);
      if solved.Uncertified? {
        NoSelfLoop(g, analysis, c, es);
        return Uncertified(solved.reason), es;
      }
      FillOne(meaning, g, analysis, c, es, solved.value);
      es' := es[member := Some(solved.value)];
      return Certified(Acyclic), es';
    }
    var orientation := ComponentOrientation(g, analysis, c);
    if orientation.Uncertified? {
      return Uncertified(orientation.reason), es;
    }
    var reversed := orientation.value == Left;
    var solved := SolveLinearComponent(meaning, g, analysis, c, component.members, es, reversed);
    if solved.Uncertified? {
      return Uncertified(solved.reason), es;
    }
    es' := FillAll(meaning, g, analysis, c, component.members, es, solved.value, reversed);
    r := Certified(if reversed then LeftLinear else RightLinear);
  }

  lemma ComponentShape(g: Grammar, analysis: SccAnalysis, c: nat)
    requires Partitions(g, analysis) && MarkedRecursive(g, analysis) && c < |analysis.components|
    ensures var members := analysis.components[c].members;
            members != [] && (forall a <- members :: a < g.nonterminals && InComponent(analysis, c, Nonterminal(a)))
            && (!analysis.components[c].recursive ==> |members| == 1 && !DependsOn(g, members[0], members[0]))
            && (!analysis.components[c].recursive ==> forall a: nat :: InComponent(analysis, c, Nonterminal(a)) ==>
                                                        a == members[0])
  {
    ComponentMembers(g, analysis, c);
    var members := analysis.components[c].members;
    forall a <- members ensures a < g.nonterminals && InComponent(analysis, c, Nonterminal(a)) {
      assert a in analysis.components[c].members <==> a < g.nonterminals && analysis.componentOf[a] == c;
    }
  }

  // A component without recursion has no symbol of its own on a right-hand side.
  lemma NoSelfLoop(g: Grammar, analysis: SccAnalysis, c: nat, es: Expressions)
    requires Partitions(g, analysis) && MarkedRecursive(g, analysis) && c < |analysis.components|
    requires !analysis.components[c].recursive
    ensures forall p: nat, s ::
              p < |g.productions| && g.productions[p].lhs == analysis.components[c].members[0]
              && s in g.productions[p].rhs ==>
              !InComponent(analysis, c, s)
  {
    ComponentShape(g, analysis, c);
  }

  lemma FillOne(meaning: Meaning, g: Grammar, analysis: SccAnalysis, c: nat, es: Expressions, e: RegularExpression)
    requires Partitions(g, analysis) && MarkedRecursive(g, analysis) && c < |analysis.components|
    requires !analysis.components[c].recursive
    requires AllExact(meaning, g, es) && ExactFor(meaning, g, analysis.components[c].members[0], e)
    ensures var member := analysis.components[c].members[0];
            member < |es| && AllExact(meaning, g, es[member := Some(e)])
              && Filled(analysis, c, es, es[member := Some(e)])
  {
    hide ExactFor;
    ComponentShape(g, analysis, c);
    assert analysis.components[c].members[0] in analysis.components[c].members;
  }

  lemma MemberExact(meaning: Meaning, g: Grammar, members: seq<nat>, solved: seq<RegularExpression>, reversed: bool,
      i: nat)
    requires SolutionFor(meaning, g, reversed, members, solved) && i < |members|
    ensures reversed ==> Reversed(solved[i]).Some?
    ensures ExactFor(meaning, g, members[i], if reversed then Reversed(solved[i]).value else solved[i])
  {
    hide Denotes, Generates;
    assert solved[i] in solved;
    ReversedIff(solved[i]);
    if reversed {
      forall w: Word
        ensures Denotes(Forwards(meaning), Reversed(solved[i]).value, w) <==>
                Generates(CfgFor(meaning, g), members[i], w)
      {
        ReversedDenotes(Forwards(meaning), solved[i], w);
        assert Denotes(ReadingFor(meaning, reversed), solved[i], Rev(w)) <==>
          Generates(CfgFor(meaning, g), members[i], Oriented(reversed, Rev(w)));
        RevRev(w);
      }
    } else {
      forall w: Word
        ensures Denotes(Forwards(meaning), solved[i], w) <==> Generates(CfgFor(meaning, g), members[i], w)
      {
        assert Denotes(ReadingFor(meaning, reversed), solved[i], w) <==>
          Generates(CfgFor(meaning, g), members[i], Oriented(reversed, w));
      }
    }
  }

  // Store the solutions, reversed back where they were solved on reversals; that never fails.
  method FillAll(ghost meaning: Meaning, g: Grammar, analysis: SccAnalysis, c: nat, members: seq<nat>, es: Expressions,
      solved: seq<RegularExpression>, reversed: bool) returns (es': Expressions)
    requires AllExact(meaning, g, es) && SolutionFor(meaning, g, reversed, members, solved)
    requires IsComponent(analysis, c, members)
    requires forall a <- members :: a < g.nonterminals
    ensures AllExact(meaning, g, es') && Filled(analysis, c, es, es')
  {
    hide SolutionFor, ExactFor, InComponent;
    es' := es;
    AllExactLength(meaning, g, es);
    assert |solved| == |members| by { SolutionLength(meaning, g, reversed, members, solved); }
    for i := 0 to |members|
      invariant |es'| == |es| && AllExact(meaning, g, es')
      invariant forall a: nat :: a < |es| ==> if a in members[..i] then es'[a].Some? else es'[a] == es[a]
    {
      MemberExact(meaning, g, members, solved, reversed, i);
      var e := if reversed then Reversed(solved[i]).value else solved[i];
      assert members[i] in members;
      assert members[..i + 1] == members[..i] + [members[i]];
      es' := es'[members[i] := Some(e)];
    }
    assert members[..|members|] == members;
  }

  lemma SolutionLength(meaning: Meaning, g: Grammar, reversed: bool, members: seq<nat>, solved: seq<RegularExpression>)
    requires SolutionFor(meaning, g, reversed, members, solved)
    ensures |solved| == |members|
  {
  }

  // ---------- The loop over the components ----------

  // Some production of component `c` mentions a nonterminal of another component `d`.
  ghost predicate ExternalOn(g: Grammar, analysis: SccAnalysis, c: nat, d: nat) {
    ExternalUpto(g, analysis, c, d, |g.productions|)
  }

  method ExternalComponents(g: Grammar, analysis: SccAnalysis, c: nat) returns (dependencies: set<nat>)
    ensures forall d: nat :: d in dependencies <==> ExternalOn(g, analysis, c, d)
  {
    dependencies := {};
    for p := 0 to |g.productions|
      invariant forall d: nat :: d in dependencies <==> ExternalUpto(g, analysis, c, d, p)
    {
      if InComponent(analysis, c, Nonterminal(g.productions[p].lhs)) {
        var found := DependenciesOf(analysis, c, g.productions[p].rhs);
        forall d: nat
          ensures ExternalUpto(g, analysis, c, d, p + 1) <==> ExternalUpto(g, analysis, c, d, p) || d in found
        {
          ExternalMore(g, analysis, c, d, p);
        }
        dependencies := dependencies + found;
      } else {
        forall d: nat ensures ExternalUpto(g, analysis, c, d, p + 1) <==> ExternalUpto(g, analysis, c, d, p) {
          ExternalMore(g, analysis, c, d, p);
        }
      }
    }
  }

  ghost predicate ExternalUpto(g: Grammar, analysis: SccAnalysis, c: nat, d: nat, upto: nat)
    requires upto <= |g.productions|
  {
    exists p: nat :: p < upto && ExternalVia(g, analysis, c, d, p)
  }

  ghost predicate ExternalVia(g: Grammar, analysis: SccAnalysis, c: nat, d: nat, p: nat)
    requires p < |g.productions|
  {
    InComponent(analysis, c, Nonterminal(g.productions[p].lhs)) && Mentions(analysis, c, g.productions[p].rhs, d)
  }

  ghost predicate Mentions(analysis: SccAnalysis, c: nat, rhs: seq<Symbol>, d: nat) {
    c != d && exists a: nat :: Nonterminal(a) in rhs && InComponent(analysis, d, Nonterminal(a))
  }

  lemma ExternalMore(g: Grammar, analysis: SccAnalysis, c: nat, d: nat, p: nat)
    requires p < |g.productions|
    ensures ExternalUpto(g, analysis, c, d, p + 1) <==>
            ExternalUpto(g, analysis, c, d, p) || ExternalVia(g, analysis, c, d, p)
  {
    hide ExternalVia;
  }

  method DependenciesOf(analysis: SccAnalysis, c: nat, rhs: seq<Symbol>) returns (found: set<nat>)
    ensures forall d: nat :: d in found <==> Mentions(analysis, c, rhs, d)
  {
    found := {};
    for i := 0 to |rhs|
      invariant forall d: nat :: d in found <==> Mentions(analysis, c, rhs[..i], d)
    {
      assert rhs[..i + 1] == rhs[..i] + [rhs[i]];
      match rhs[i]
      case Terminal(_) =>
      case Nonterminal(a) =>
        if a < |analysis.componentOf| && analysis.componentOf[a] != c {
          assert InComponent(analysis, analysis.componentOf[a], Nonterminal(a));
          found := found + {analysis.componentOf[a]};
        }
    }
    assert rhs[..|rhs|] == rhs;
  }

  // ---------- Progress: the components form no cycle ----------

  ghost function ReachSet(g: Grammar, a: nat): set<nat> {
    set x: nat | x < g.nonterminals && Reaches(g, a, x)
  }

  lemma SmallerReach(g: Grammar, analysis: SccAnalysis, c: nat, d: nat)
    requires InRange(g) && Partitions(g, analysis) && StronglyConnected(g, analysis)
    requires c < |analysis.components| && d < |analysis.components| && ExternalOn(g, analysis, c, d)
    ensures ReachSet(g, analysis.components[d].members[0]) < ReachSet(g, analysis.components[c].members[0])
  {
    hide Reaches;
    var a, b := analysis.components[c].members[0], analysis.components[d].members[0];
    assert a in analysis.components[c].members && b in analysis.components[d].members;
    var p: nat :| p < |g.productions| && ExternalVia(g, analysis, c, d, p);
    var y: nat :| Nonterminal(y) in g.productions[p].rhs && InComponent(analysis, d, Nonterminal(y));
    var x := g.productions[p].lhs;
    assert analysis.componentOf[x] == analysis.componentOf[a] && analysis.componentOf[y] == analysis.componentOf[b];
    assert DependsOn(g, x, y);
    ReachesStep(g, x, y);
    ReachesTransitive(g, a, x, y);
    ReachesTransitive(g, a, y, b);
    forall z: nat | z < g.nonterminals && Reaches(g, b, z) ensures Reaches(g, a, z) {
      ReachesTransitive(g, a, b, z);
    }
    ReachesItself(g, a);
    assert a in ReachSet(g, a) && a !in ReachSet(g, b);
  }

  // Components that all wait for one another would be one component.
  lemma {:induction false} NoStall(g: Grammar, analysis: SccAnalysis, waiting: set<nat>, c: nat)
    requires InRange(g) && Partitions(g, analysis) && StronglyConnected(g, analysis)
    requires forall d <- waiting :: d < |analysis.components| && exists e <- waiting :: ExternalOn(g, analysis, d, e)
    requires c in waiting
    ensures false
    decreases ReachSet(g, analysis.components[c].members[0])
  {
    hide InRange, Partitions, StronglyConnected, ExternalOn, ReachSet;
    var e :| e in waiting && ExternalOn(g, analysis, c, e);
    SmallerReach(g, analysis, c, e);
    NoStall(g, analysis, waiting, e);
  }

  type Outcomes = seq<Option<Attempt<CertificateKind>>>

  function Unprocessed(outcomes: Outcomes): nat {
    if outcomes == [] then 0
    else Unprocessed(outcomes[..|outcomes| - 1]) + if outcomes[|outcomes| - 1].None? then 1 else 0
  }

  lemma {:induction false} OneProcessed(outcomes: Outcomes, c: nat, outcome: Attempt<CertificateKind>)
    requires c < |outcomes| && outcomes[c].None?
    ensures Unprocessed(outcomes) == Unprocessed(outcomes[c := Some(outcome)]) + 1
    decreases |outcomes|
  {
    var after := outcomes[c := Some(outcome)];
    if c < |outcomes| - 1 {
      assert after[..|after| - 1] == outcomes[..|outcomes| - 1][c := Some(outcome)];
      OneProcessed(outcomes[..|outcomes| - 1], c, outcome);
    } else {
      assert after[..|after| - 1] == outcomes[..|outcomes| - 1];
    }
  }

  lemma {:induction false} SomeUnprocessed(outcomes: Outcomes)
    ensures Unprocessed(outcomes) > 0 <==> exists c: nat :: c < |outcomes| && outcomes[c].None?
    decreases |outcomes|
  {
    if outcomes != [] {
      var front := outcomes[..|outcomes| - 1];
      SomeUnprocessed(front);
      assert forall c: nat :: c < |front| ==> front[c] == outcomes[c];
      if outcomes[|outcomes| - 1].Some? {
        assert forall c: nat :: c < |outcomes| && outcomes[c].None? ==> c < |front|;
      }
    }
  }

  // What the outcomes so far say about the expressions so far.
  ghost predicate OutcomesFor(g: Grammar, analysis: SccAnalysis, outcomes: Outcomes, es: Expressions) {
    && |outcomes| == |analysis.components| && |es| == g.nonterminals
    && (forall a: nat {:trigger es[a]} ::
          a < |es| && a < |analysis.componentOf| && analysis.componentOf[a] < |outcomes| ==>
          (es[a].Some? <==> Succeeded(outcomes, analysis.componentOf[a])))
    && (forall c: nat :: c < |outcomes| && outcomes[c].Some? ==> Justified(g, analysis, outcomes, es, c))
  }

  predicate Succeeded(outcomes: Outcomes, c: nat) {
    c < |outcomes| && outcomes[c].Some? && outcomes[c].value.Certified?
  }

  predicate Refused(outcomes: Outcomes, c: nat) {
    c < |outcomes| && outcomes[c].Some? && outcomes[c].value.Uncertified?
  }

  // A processed component waited for its dependencies, and was refused only for one of them or for itself.
  ghost predicate Justified(g: Grammar, analysis: SccAnalysis, outcomes: Outcomes, es: Expressions, c: nat)
    requires c < |outcomes| == |analysis.components|
  {
    && (forall d: nat :: ExternalOn(g, analysis, c, d) ==> d < |outcomes| && outcomes[d].Some?)
    && (Refused(outcomes, c) ==>
          (exists d: nat :: ExternalOn(g, analysis, c, d) && Refused(outcomes, d))
              || NotRegularHere(g, analysis, c, es))
  }

  // Processing one more component, dependencies first, keeps the record true.
  lemma OutcomesStep(g: Grammar, analysis: SccAnalysis, outcomes: Outcomes, es: Expressions, c: nat,
      outcome: Attempt<CertificateKind>, es': Expressions)
    requires OutcomesFor(g, analysis, outcomes, es) && Partitions(g, analysis) && c < |outcomes| && outcomes[c].None?
    requires forall d: nat :: ExternalOn(g, analysis, c, d) ==> d < |outcomes| && outcomes[d].Some?
    requires if outcome.Certified? then Filled(analysis, c, es, es') else es' == es
    requires outcome.Uncertified? ==>
               (exists d: nat :: ExternalOn(g, analysis, c, d) && Refused(outcomes, d))
                   || NotRegularHere(g, analysis, c, es)
    ensures OutcomesFor(g, analysis, outcomes[c := Some(outcome)], es')
  {
    hide NotRegularHere, ExternalOn;
    var after := outcomes[c := Some(outcome)];
    forall a: nat | a < |es'| && a < |analysis.componentOf| && analysis.componentOf[a] < |after|
      ensures es'[a].Some? <==> Succeeded(after, analysis.componentOf[a])
    {
      assert es[a].Some? <==> Succeeded(outcomes, analysis.componentOf[a]);
      assert InComponent(analysis, c, Nonterminal(a)) <==> analysis.componentOf[a] == c;
    }
    forall k: nat | k < |after| && after[k].Some? ensures Justified(g, analysis, after, es', k) {
      if k == c {
        ExternalNotSelf(g, analysis, c);
        JustifiedStays(g, analysis, outcomes, after, es, es', c, k);
      } else {
        assert Justified(g, analysis, outcomes, es, k);
        JustifiedStays(g, analysis, outcomes, after, es, es', c, k);
      }
    }
  }

  lemma ExternalNotSelf(g: Grammar, analysis: SccAnalysis, c: nat)
    ensures !ExternalOn(g, analysis, c, c)
  {
  }

  lemma JustifiedStays(g: Grammar, analysis: SccAnalysis, outcomes: Outcomes, after: Outcomes, es: Expressions,
      es': Expressions, c: nat, k: nat)
    requires |outcomes| == |after| == |analysis.components| && c < |outcomes| && k < |outcomes| && outcomes[c].None?
    requires forall d: nat :: d < |outcomes| && d != c ==> after[d] == outcomes[d]
    requires |es'| == |es| && forall a: nat :: a < |es| && !InComponent(analysis, c, Nonterminal(a)) ==> es'[a] == es[a]
    requires forall d: nat :: ExternalOn(g, analysis, k, d) ==> d < |outcomes| && outcomes[d].Some?
    requires after[k].Some? && (k == c ==> after[k].value.Uncertified? ==> es' == es)
    requires Refused(after, k) ==>
               (exists d: nat :: ExternalOn(g, analysis, k, d) && Refused(outcomes, d))
                   || NotRegularHere(g, analysis, k, es)
    ensures Justified(g, analysis, after, es', k)
  {
    if Refused(after, k) {
      if NotRegularHere(g, analysis, k, es) {
        if k != c && Irreversible(g, analysis, k, es) {
          IrreversibleStays(g, analysis, outcomes, es, es', c, k);
        }
      } else {
        var d: nat :| ExternalOn(g, analysis, k, d) && Refused(outcomes, d);
        assert Refused(after, d);
      }
    }
  }

  lemma IrreversibleStays(g: Grammar, analysis: SccAnalysis, outcomes: Outcomes, es: Expressions, es': Expressions,
      c: nat, k: nat)
    requires Irreversible(g, analysis, k, es) && c != k && c < |outcomes| && outcomes[c].None?
    requires |es'| == |es| && forall a: nat :: a < |es| && !InComponent(analysis, c, Nonterminal(a)) ==> es'[a] == es[a]
    requires forall d: nat :: ExternalOn(g, analysis, k, d) ==> d < |outcomes| && outcomes[d].Some?
    ensures Irreversible(g, analysis, k, es')
  {
    var p: nat, s :| p < |g.productions| && InComponent(analysis, k, Nonterminal(g.productions[p].lhs))
      && s in g.productions[p].rhs
                     && CannotReverse(g, analysis, k, es, s);
    if s.Nonterminal? && InComponent(analysis, c, s) {
      assert s == Nonterminal(s.id);
      assert ExternalVia(g, analysis, k, c, p);
      assert ExternalOn(g, analysis, k, c);
    }
    assert CannotReverse(g, analysis, k, es', s);
  }

  // All dependencies certified: their expressions are there.
  lemma ReadyFrom(g: Grammar, analysis: SccAnalysis, outcomes: Outcomes, es: Expressions, c: nat)
    requires InRange(g) && Partitions(g, analysis) && OutcomesFor(g, analysis, outcomes, es) && c < |outcomes|
    requires forall d: nat :: ExternalOn(g, analysis, c, d) ==> Succeeded(outcomes, d)
    ensures DependenciesReady(g, analysis, c, es)
  {
    forall p: nat, a: nat | p < |g.productions| && InComponent(analysis, c, Nonterminal(g.productions[p].lhs))
                            && Nonterminal(a) in g.productions[p].rhs && !InComponent(analysis, c, Nonterminal(a))
      ensures a < |es| && es[a].Some?
    {
      ProductionKnown(g, p);
      var d := analysis.componentOf[a];
      assert InComponent(analysis, d, Nonterminal(a));
      assert ExternalVia(g, analysis, c, d, p);
      assert ExternalOn(g, analysis, c, d);
      assert es[a].Some? <==> Succeeded(outcomes, d);
    }
  }

  // Certify every component; the loop always makes progress, so there is no error to report.
  method CertifyRegular(ghost meaning: Meaning, g: Grammar, analysis: SccAnalysis)
      returns (outcomes: Outcomes, es: Expressions)
    requires InRange(g)
    requires Partitions(g, analysis) && MarkedRecursive(g, analysis) && StronglyConnected(g, analysis)
    ensures AllExact(meaning, g, es) && OutcomesFor(g, analysis, outcomes, es)
    ensures forall c: nat :: c < |outcomes| ==> outcomes[c].Some?
  {
    hide Partitions, MarkedRecursive, StronglyConnected, AllExact, ExternalOn, OutcomesFor, InRange;
    es := seq(g.nonterminals, _ => None);
    outcomes := seq(|analysis.components|, _ => None);
    NothingCertified(meaning, g, analysis);
    var remaining := Unprocessed(outcomes);
    while remaining != 0
      invariant |outcomes| == |analysis.components| && remaining == Unprocessed(outcomes)
      invariant AllExact(meaning, g, es) && OutcomesFor(g, analysis, outcomes, es)
      decreases remaining
    {
      NotStalled(g, analysis, outcomes);
      var progress, left, next, more := Sweep(meaning, g, analysis, outcomes, es, remaining);
      assert progress;
      outcomes, es, remaining := next, more, left;
    }
    SomeUnprocessed(outcomes);
  }

  lemma ExternalInRange(g: Grammar, analysis: SccAnalysis, c: nat)
    requires Partitions(g, analysis)
    ensures forall d: nat :: ExternalOn(g, analysis, c, d) ==> d < |analysis.components|
  {
    forall d: nat | ExternalOn(g, analysis, c, d) ensures d < |analysis.components| {
      var p: nat :| p < |g.productions| && ExternalVia(g, analysis, c, d, p);
      var a: nat :| Nonterminal(a) in g.productions[p].rhs && InComponent(analysis, d, Nonterminal(a));
    }
  }

  // One pass over the components: each one whose dependencies are all processed is processed.
  method Sweep(ghost meaning: Meaning, g: Grammar, analysis: SccAnalysis, outcomes: Outcomes, es: Expressions,
      remaining: nat)
    returns (progress: bool, left: nat, next: Outcomes, more: Expressions)
    requires InRange(g) && Partitions(g, analysis) && MarkedRecursive(g, analysis)
    requires |outcomes| == |analysis.components| && remaining == Unprocessed(outcomes)
    requires AllExact(meaning, g, es) && OutcomesFor(g, analysis, outcomes, es)
    ensures |next| == |outcomes| && left == Unprocessed(next) && left <= remaining && (progress ==> left < remaining)
    ensures AllExact(meaning, g, more) && OutcomesFor(g, analysis, next, more)
    ensures !progress ==> forall c: nat :: c < |outcomes| && outcomes[c].None? ==> Waits(g, analysis, outcomes, c)
  {
    hide Partitions, MarkedRecursive, AllExact, ExternalOn, OutcomesFor, InRange, NotRegularHere, DependenciesReady,
      Filled;
    progress, left, next, more := false, remaining, outcomes, es;
    for c := 0 to |analysis.components|
      invariant |next| == |outcomes| && left == Unprocessed(next) && left <= remaining
      invariant (progress ==> left < remaining)
      invariant AllExact(meaning, g, more) && OutcomesFor(g, analysis, next, more)
      invariant !progress ==> next == outcomes && forall k: nat :: k < c && outcomes[k].None? ==>
                                                    Waits(g, analysis, outcomes, k)
    {
      if next[c].None? {
        var dependencies := ExternalComponents(g, analysis, c);
        ExternalInRange(g, analysis, c);
        if exists d <- dependencies :: next[d].None? {
          assert Waits(g, analysis, next, c);
        } else {
          var outcome, es' := ProcessComponent(meaning, g, analysis, next, more, c, dependencies);
          OneProcessed(next, c, outcome);
          next, more, left, progress := next[c := Some(outcome)], es', left - 1, true;
        }
      }
    }
  }

  // A component whose dependencies are all processed: refused with any of them, certified on its own otherwise.
  method ProcessComponent(ghost meaning: Meaning, g: Grammar, analysis: SccAnalysis, outcomes: Outcomes,
      es: Expressions, c: nat, dependencies: set<nat>)
    returns (outcome: Attempt<CertificateKind>, es': Expressions)
    requires InRange(g) && Partitions(g, analysis) && MarkedRecursive(g, analysis)
    requires |outcomes| == |analysis.components| && c < |outcomes| && outcomes[c].None?
    requires AllExact(meaning, g, es) && OutcomesFor(g, analysis, outcomes, es)
    requires forall d: nat :: d in dependencies <==> ExternalOn(g, analysis, c, d)
    requires forall d <- dependencies :: d < |outcomes| && outcomes[d].Some?
    ensures AllExact(meaning, g, es') && OutcomesFor(g, analysis, outcomes[c := Some(outcome)], es')
  {
    hide Partitions, MarkedRecursive, AllExact, ExternalOn, OutcomesFor, InRange, NotRegularHere, DependenciesReady,
      Filled;
    if exists d <- dependencies :: outcomes[d].value.Uncertified? {
      outcome, es' := Uncertified(UncertifiedDependency), es;
      OutcomesStep(g, analysis, outcomes, es, c, outcome, es');
    } else {
      outcome, es' := CertifyComponent(meaning, g, analysis, c, es);
      ReadyFrom(g, analysis, outcomes, es, c);
      OutcomesStep(g, analysis, outcomes, es, c, outcome, es');
    }
  }

  lemma NothingCertified(meaning: Meaning, g: Grammar, analysis: SccAnalysis)
    ensures AllExact(meaning, g, seq(g.nonterminals, _ => None))
    ensures OutcomesFor(g, analysis, seq(|analysis.components|, _ => None), seq(g.nonterminals, _ => None))
  {
  }

  // Component `c` still waits for another one.
  ghost predicate Waits(g: Grammar, analysis: SccAnalysis, outcomes: Outcomes, c: nat) {
    exists d: nat :: ExternalOn(g, analysis, c, d) && d < |outcomes| && outcomes[d].None?
  }

  // Some unprocessed component waits for no other.
  lemma NotStalled(g: Grammar, analysis: SccAnalysis, outcomes: Outcomes)
    requires InRange(g) && Partitions(g, analysis) && StronglyConnected(g, analysis)
    requires |outcomes| == |analysis.components|
    requires Unprocessed(outcomes) > 0
    ensures exists c: nat :: c < |outcomes| && outcomes[c].None? && !Waits(g, analysis, outcomes, c)
  {
    hide ExternalOn, InRange, Partitions, StronglyConnected;
    SomeUnprocessed(outcomes);
    var waiting := set c: nat | c < |outcomes| && outcomes[c].None?;
    var c: nat :| c < |outcomes| && outcomes[c].None?;
    if forall d: nat :: d < |outcomes| && outcomes[d].None? ==> Waits(g, analysis, outcomes, d) {
      forall d <- waiting ensures d < |analysis.components| && exists e <- waiting :: ExternalOn(g, analysis, d, e) {
        assert Waits(g, analysis, outcomes, d);
      }
      NoStall(g, analysis, waiting, c);
    }
  }
}
