/**
 The grammar a schema is lowered to: productions over literals and patterns, and its dependency graph.
 */
module SchemaGrammars {
  import opened Grammars
  import opened RegularExpressions

  datatype RegularTerminal = LiteralTerminal(bytes: Word) | PatternTerminal(forward: string, reverse: Option<string>) {

    function ForwardPattern(): Pattern {
      match this
      case LiteralTerminal(bytes) => Escaped(bytes)
      case PatternTerminal(forward, _) => Source(forward)
    }

    // Only ASCII literals are reversed.
    function ReversePattern(): Option<Pattern> {
      match this
      case LiteralTerminal(bytes) => if forall b <- bytes :: b < 128 then Some(Escaped(Rev(bytes))) else None
      case PatternTerminal(_, reverse) => if reverse.None? then None else Some(Source(reverse.value))
    }

    function AsAtom(): RegularExpression {
      Atom(ForwardPattern(), ReversePattern())
    }

    ghost function Language(meaning: Meaning): iset<Word> {
      match this
      case LiteralTerminal(bytes) => iset{bytes}
      case PatternTerminal(forward, _) => meaning(forward)
    }
  }

  datatype Grammar = Grammar(start: nat, nonterminals: nat, terminals: seq<RegularTerminal>,
    productions: seq<Production>)

  predicate InRange(g: Grammar) {
    g.start < g.nonterminals && forall p <- g.productions :: ProductionInRange(p, g.nonterminals, |g.terminals|)
  }

  ghost function CfgFor(meaning: Meaning, g: Grammar): Cfg {
    Cfg(g.start, g.nonterminals, g.productions,
        seq(|g.terminals|, i requires 0 <= i < |g.terminals| => g.terminals[i].Language(meaning)))
  }

  lemma AtomDenotes(meaning: Meaning, t: RegularTerminal, w: Word)
    ensures Denotes(Forwards(meaning), t.AsAtom(), w) <==> w in t.Language(meaning)
  {
  }

  lemma ProductionKnown(g: Grammar, p: nat)
    requires InRange(g) && p < |g.productions|
    ensures g.productions[p].lhs < g.nonterminals
    ensures forall s <- g.productions[p].rhs :: SymbolInRange(s, g.nonterminals, |g.terminals|)
  {
    assert g.productions[p] in g.productions;
  }

  // ---------- The dependency graph ----------

  // Some production of `a` mentions `b`.
  ghost predicate DependsOn(g: Grammar, a: nat, b: nat) {
    exists p: nat :: p < |g.productions| && g.productions[p].lhs == a && Nonterminal(b) in g.productions[p].rhs
  }

  ghost predicate PathFor(g: Grammar, path: seq<nat>) {
    path != [] && forall i :: 0 < i < |path| ==> DependsOn(g, path[i - 1], path[i])
  }

  ghost predicate Reaches(g: Grammar, a: nat, b: nat) {
    exists path :: PathFor(g, path) && path[0] == a && path[|path| - 1] == b
  }

  lemma ReachesItself(g: Grammar, a: nat)
    ensures Reaches(g, a, a)
  {
    assert PathFor(g, [a]);
  }

  lemma ReachesStep(g: Grammar, a: nat, b: nat)
    requires DependsOn(g, a, b)
    ensures Reaches(g, a, b)
  {
    var path := [a, b];
    assert PathFor(g, path) && path[0] == a && path[|path| - 1] == b;
  }

  lemma ReachesTransitive(g: Grammar, a: nat, b: nat, c: nat)
    requires Reaches(g, a, b) && Reaches(g, b, c)
    ensures Reaches(g, a, c)
  {
    hide DependsOn;
    var p :| PathFor(g, p) && p[0] == a && p[|p| - 1] == b;
    var q :| PathFor(g, q) && q[0] == b && q[|q| - 1] == c;
    var path := p + q[1..];
    forall i | 0 < i < |path| ensures DependsOn(g, path[i - 1], path[i]) {
      if i >= |p| {
        assert path[i] == q[i - |p| + 1] && path[i - 1] == q[i - |p|];
      }
    }
    assert path[0] == a && path[|path| - 1] == c;
  }

  lemma ReachesInRange(g: Grammar, a: nat, b: nat)
    requires InRange(g) && a < g.nonterminals && Reaches(g, a, b)
    ensures b < g.nonterminals
  {
    var path :| PathFor(g, path) && path[0] == a && path[|path| - 1] == b;
    if |path| > 1 {
      assert DependsOn(g, path[|path| - 2], b);
      var p: nat :| p < |g.productions| && g.productions[p].lhs == path[|path| - 2]
        && Nonterminal(b) in g.productions[p].rhs;
      ProductionKnown(g, p);
    }
  }

  // ---------- Components ----------

  datatype Scc = Scc(id: nat, members: seq<nat>, recursive: bool)

  datatype SccAnalysis = SccAnalysis(components: seq<Scc>, componentOf: seq<nat>)

  // The components partition the nonterminals.
  ghost predicate Partitions(g: Grammar, a: SccAnalysis) {
    && |a.componentOf| == g.nonterminals
    && (forall n: nat :: n < g.nonterminals ==> a.componentOf[n] < |a.components|)
    && (forall c: nat :: c < |a.components| ==> a.components[c].id == c && a.components[c].members != [])
    && (forall c: nat, n: nat {:trigger n in a.components[c].members} :: c < |a.components| ==>
          (n in a.components[c].members <==> n < g.nonterminals && a.componentOf[n] == c))
    && (forall c: nat, i, j :: c < |a.components| && 0 <= i < j < |a.components[c].members| ==>
          a.components[c].members[i] < a.components[c].members[j])
  }

  // Strongly connected: two nonterminals share a component exactly when each reaches the other, and a component
  // is recursive exactly when some member depends on a member.
  ghost predicate StronglyConnected(g: Grammar, a: SccAnalysis)
    requires Partitions(g, a)
  {
    && (forall m: nat, n: nat :: m < g.nonterminals && n < g.nonterminals ==>
          (a.componentOf[m] == a.componentOf[n] <==> Reaches(g, m, n) && Reaches(g, n, m)))
    && (forall c: nat :: c < |a.components| ==>
          (a.components[c].recursive <==> OnCycle(g, a.components[c].members)))
  }

  // Some member lies on a cycle of the dependency graph.
  ghost predicate OnCycle(g: Grammar, members: seq<nat>) {
    exists m: nat, n: nat :: m in members && DependsOn(g, m, n) && Reaches(g, n, m)
  }

  // A component is marked recursive as soon as it has two members or a member that mentions itself.
  ghost predicate MarkedRecursive(g: Grammar, analysis: SccAnalysis) {
    forall c: nat {:trigger analysis.components[c]} :: c < |analysis.components| ==>
      (analysis.components[c].recursive <==>
       |analysis.components[c].members| > 1
       || (|analysis.components[c].members| == 1
          && DependsOn(g, analysis.components[c].members[0], analysis.components[c].members[0])))
  }
}
