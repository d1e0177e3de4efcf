/**
 The grammar both structural backends consume: productions over compiled terminals, with the derived
 tables (productions by left-hand side, nullable nonterminals) the grammar stage computes.
 */
module ResidualGrammars {
  import opened Grammars
  import opened Terminals

  datatype ResidualGrammar = ResidualGrammar(
    start: nat,
    nonterminals: nat,
    terminals: seq<CompiledTerminal>,
    productions: seq<Production>,
    productionsByLhs: seq<seq<nat>>,
    nullable: seq<bool>)

  ghost function AsCfg(g: ResidualGrammar): Cfg {
    Cfg(g.start, g.nonterminals, g.productions, Languages(g.terminals))
  }

  // The same grammar with the fresh start production both parsers add behind the last one.
  ghost function Augmented(g: ResidualGrammar): Cfg {
    Cfg(g.nonterminals, g.nonterminals + 1, AugmentedProductions(g), Languages(g.terminals))
  }

  function AugmentedProductions(g: ResidualGrammar): seq<Production> {
    g.productions + [Production(g.nonterminals, [Nonterminal(g.start)])]
  }

  predicate InRange(g: ResidualGrammar) {
    && g.start < g.nonterminals
    && |g.nullable| == g.nonterminals
    && |g.productionsByLhs| == g.nonterminals
    && (forall p <- g.productions :: ProductionInRange(p, g.nonterminals, |g.terminals|))
  }

  ghost predicate IndexExact(g: ResidualGrammar)
    requires InRange(g)
  {
    forall a: nat, p: nat {:trigger p in g.productionsByLhs[a]} :: a < g.nonterminals ==>
      (p in g.productionsByLhs[a] <==> p < |g.productions| && g.productions[p].lhs == a)
  }

  ghost predicate NullableExact(g: ResidualGrammar)
    requires InRange(g)
  {
    forall a: nat :: a < g.nonterminals ==> (g.nullable[a] <==> Generates(AsCfg(g), a, []))
  }

  ghost predicate WellFormed(g: ResidualGrammar) {
    && InRange(g)
    && IndexExact(g)
    && NullableExact(g)
    && (forall t <- g.terminals :: WellFormedTerminal(t))
  }

  lemma {:induction false} AugmentedTree(g: ResidualGrammar, t: Tree, s: Symbol)
    requires InRange(g) && SymbolInRange(s, g.nonterminals, |g.terminals|)
    ensures TreeFor(AsCfg(g), t, s) <==> TreeFor(Augmented(g), t, s)
    decreases t
  {
    match t
    case Leaf(_, _) =>
    case Node(p, kids) =>
      if p < |g.productions| {
        assert AugmentedProductions(g)[p] == g.productions[p];
        assert g.productions[p] in g.productions;
        AugmentedForest(g, kids, g.productions[p].rhs);
      }
  }

  lemma {:induction false} AugmentedForest(g: ResidualGrammar, f: Forest, alpha: seq<Symbol>)
    requires InRange(g) && forall s <- alpha :: SymbolInRange(s, g.nonterminals, |g.terminals|)
    ensures ForestFor(AsCfg(g), f, alpha) <==> ForestFor(Augmented(g), f, alpha)
    decreases f
  {
    match f
    case Nil =>
    case Cons(t, rest) =>
      if alpha != [] {
        AugmentedTree(g, t, alpha[0]);
        AugmentedForest(g, rest, alpha[1..]);
      }
  }

  // Augmenting changes no language: the old start derives the same words, and so does every nonterminal.
  lemma AugmentedGenerates(g: ResidualGrammar, a: nat, w: Word)
    requires InRange(g) && a < g.nonterminals
    ensures Generates(Augmented(g), a, w) <==> Generates(AsCfg(g), a, w)
  {
    if Generates(Augmented(g), a, w) {
      var t: Tree :| TreeFor(Augmented(g), t, Nonterminal(a)) && Yield(t) == w;
      AugmentedTree(g, t, Nonterminal(a));
    }
    if Generates(AsCfg(g), a, w) {
      var t: Tree :| TreeFor(AsCfg(g), t, Nonterminal(a)) && Yield(t) == w;
      AugmentedTree(g, t, Nonterminal(a));
    }
  }

  lemma LeafWordsNonempty(g: ResidualGrammar, t: nat, w: Word)
    requires WellFormed(g) && t < |g.terminals| && w in Languages(g.terminals)[t]
    ensures w != []
  {
    assert WellFormedTerminal(g.terminals[t]);
  }

  // ---------- Productive grammars ----------

  // Every nonterminal derives some word and every terminal matches some word.
  ghost predicate Productive(g: ResidualGrammar) {
    && (forall a: nat :: a < g.nonterminals ==> GeneratesSome(AsCfg(g), a))
    && (forall t <- g.terminals :: MatchesSome(t))
  }

  ghost predicate MatchesSome(t: CompiledTerminal) {
    exists w: Word :: Matches(t, w)
  }

  lemma ProductiveTree(g: ResidualGrammar, s: Symbol) returns (t: Tree)
    requires InRange(g) && Productive(g) && SymbolInRange(s, g.nonterminals, |g.terminals|)
    ensures TreeFor(Augmented(g), t, s)
  {
    match s {
      case Nonterminal(a) =>
        assert GeneratesSome(AsCfg(g), a);
        var w: Word :| Generates(AsCfg(g), a, w);
        AugmentedGenerates(g, a, w);
        t :| TreeFor(Augmented(g), t, s) && Yield(t) == w;
      case Terminal(id) =>
        assert MatchesSome(g.terminals[id]);
        var w: Word :| Matches(g.terminals[id], w);
        t := Leaf(id, w);
    }
  }

  lemma {:induction false} ProductiveForest(g: ResidualGrammar, alpha: seq<Symbol>) returns (f: Forest)
    requires InRange(g) && Productive(g) && forall s <- alpha :: SymbolInRange(s, g.nonterminals, |g.terminals|)
    ensures ForestFor(Augmented(g), f, alpha)
    decreases |alpha|
  {
    if alpha == [] {
      f := Nil;
    } else {
      assert alpha[0] in alpha;
      var t := ProductiveTree(g, alpha[0]);
      var rest := ProductiveForest(g, alpha[1..]);
      f := Cons(t, rest);
    }
  }
}
