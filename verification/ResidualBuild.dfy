/**
 Building the residual grammar: the productions of the retained nonterminals over one table of terminals.
 */
module ResidualBuild {
  import opened Grammars
  import opened CompileErrors
  import opened Terminals
  import opened RegularExpressions
  import opened SchemaGrammars
  import opened GrammarMaps
  import opened Certification
  import opened ResidualCollapse
  import opened ByteAutomata
  import GR = GrammarReduction
  import GrammarReducer
  import RC = RegularCertificates
  import R = ResidualGrammars

  // ---------- One symbol ----------

  function TerminalLanguageOf(t: RegularTerminal): TerminalLanguage {
    match t
    case LiteralTerminal(bytes) => LiteralBytes(bytes)
    case PatternTerminal(_, _) => Expression(t.AsAtom())
  }

  // What a symbol that stays no nonterminal is compiled from; None when it has no expression.
  function CollapsesTo(g: Grammar, es: Expressions, s: Symbol): Option<TerminalLanguage>
    requires |es| == g.nonterminals && SymbolInRange(s, g.nonterminals, |g.terminals|)
  {
    match s
    case Terminal(t) => Some(TerminalLanguageOf(g.terminals[t]))
    case Nonterminal(a) => if es[a].None? then None else Some(Expression(es[a].value))
  }

  lemma CollapseSpeaks(meaning: Meaning, g: Grammar, es: Expressions, s: Symbol, w: Word)
    requires AllExact(meaning, g, es) && SymbolInRange(s, g.nonterminals, |g.terminals|) && CollapsesTo(g, es, s).Some?
    ensures Speaks(meaning, CollapsesTo(g, es, s).value, w) <==> Derives(CfgFor(meaning, g), [s], w)
  {
    match s
    case Terminal(t) =>
      DerivesTerminal(CfgFor(meaning, g), t, w);
      AtomDenotes(meaning, g.terminals[t], w);
    case Nonterminal(a) =>
      assert ExactFor(meaning, g, a, es[a].value);
      DerivesNonterminal(CfgFor(meaning, g), a, w);
  }

  predicate Stays(remap: Renumbering, s: Symbol) {
    s.Nonterminal? && Retains(remap, s.id)
  }

  ghost predicate SymbolCollapses(c: Cfg, remap: Renumbering, terminals: seq<CompiledTerminal>, s: Symbol, s': Symbol) {
    if Stays(remap, s) then s' == Nonterminal(remap[s.id].value)
    else s'.Terminal? && s'.id < |terminals| && forall w: Word :: Matches(terminals[s'.id], w) <==> Derives(c, [s], w)
  }

  ghost predicate RhsCollapses(c: Cfg, remap: Renumbering, terminals: seq<CompiledTerminal>, rhs: seq<Symbol>,
      rhs': seq<Symbol>)
  {
    |rhs| == |rhs'| && forall k :: 0 <= k < |rhs| ==> SymbolCollapses(c, remap, terminals, rhs[k], rhs'[k])
  }

  lemma RhsCollapsesMore(c: Cfg, remap: Renumbering, terminals: seq<CompiledTerminal>, more: seq<CompiledTerminal>,
      rhs: seq<Symbol>, rhs': seq<Symbol>)
    requires RhsCollapses(c, remap, terminals, rhs, rhs') && terminals <= more
    ensures RhsCollapses(c, remap, more, rhs, rhs')
  {
    forall k | 0 <= k < |rhs| ensures SymbolCollapses(c, remap, more, rhs[k], rhs'[k]) {
      assert SymbolCollapses(c, remap, terminals, rhs[k], rhs'[k]);
    }
  }

  // Every language in the table is that of some symbol of the grammar.
  ghost predicate FromGrammar(g: Grammar, es: Expressions, languages: seq<TerminalLanguage>)
    requires |es| == g.nonterminals
  {
    forall l <- languages :: SymbolSpeaking(g, es, l)
  }

  ghost predicate SymbolSpeaking(g: Grammar, es: Expressions, l: TerminalLanguage)
    requires |es| == g.nonterminals
  {
    exists s :: SymbolInRange(s, g.nonterminals, |g.terminals|) && CollapsesTo(g, es, s) == Some(l)
  }

  // A symbol that cannot become a terminal: it has no expression, or it derives the empty word.
  ghost predicate Blocked(c: Cfg, es: Expressions, remap: Renumbering, s: Symbol) {
    !Stays(remap, s) && (Derives(c, [s], []) || (s.Nonterminal? && s.id < |es| && es[s.id].None?))
  }

  ghost predicate RhsBlocked(c: Cfg, es: Expressions, remap: Renumbering, rhs: seq<Symbol>) {
    exists s :: s in rhs && Blocked(c, es, remap, s)
  }

  // Compiling a terminal of the grammar fails: its own automaton, or those of some of its terminals together.
  ghost predicate TerminalFails(g: Grammar, es: Expressions, compile: Compiler, limits: GrammarLimits,
      error: CompileError)
    requires |es| == g.nonterminals
  {
    || (exists l :: SymbolSpeaking(g, es, l) && LanguageFails(compile, limits, l, error))
    || (exists languages :: FromGrammar(g, es, languages) && TotalOver(compile, limits, languages, error))
  }

  method CollapseSymbol(ghost meaning: Meaning, g: Grammar, es: Expressions, remap: Renumbering, compile: Compiler,
      limits: GrammarLimits, table: TerminalTable, s: Symbol)
    returns (r: Result<Symbol>)
    requires AllExact(meaning, g, es) && SymbolInRange(s, g.nonterminals, |g.terminals|)
    requires CompilesExactly(meaning, compile)
    requires table.Valid(meaning) && table.Counted(compile) && FromGrammar(g, es, table.languages)
    modifies table
    ensures table.Valid(meaning) && old(table.terminals) <= table.terminals && FromGrammar(g, es, table.languages)
    ensures r.Ok? ==> SymbolCollapses(CfgFor(meaning, g), remap, table.terminals, s, r.value)
    ensures r.Ok? ==> table.Counted(compile)
                      && (table.dfaStates == old(table.dfaStates) || table.dfaStates <= limits.maxTerminalDfaStates)
    ensures r.Err? ==> TerminalFails(g, es, compile, limits, r.error)
                       || (r.error.InternalError? && Blocked(CfgFor(meaning, g), es, remap, s))
  {
    hide AllExact, CompilesExactly, TotalOver, LanguageFails, Speaks, CfgFor, TerminalTable.Counted;
    if Stays(remap, s) {
      return Ok(Nonterminal(remap[s.id].value));
    }
    ExpressionsSize(meaning, g, es);
    var language := CollapsesTo(g, es, s);
    if language.None? {
      return Err(InternalError("certified dependency has no regular expression"));
    }
    assert SymbolSpeaking(g, es, language.value);
    ghost var languages := table.languages + [language.value];
    assert FromGrammar(g, es, languages);
    var id := table.CompileTerminal(meaning, compile, limits, language.value);
    if id.Err? {
      CollapseSpeaks(meaning, g, es, s, []);
      return Err(id.error);
    }
    TableSpeaks(meaning, table, id.value);
    forall w: Word ensures Matches(table.terminals[id.value], w) <==> Derives(CfgFor(meaning, g), [s], w) {
      CollapseSpeaks(meaning, g, es, s, w);
    }
    return Ok(Terminal(id.value));
  }

  lemma ExpressionsSize(meaning: Meaning, g: Grammar, es: Expressions)
    requires AllExact(meaning, g, es)
    ensures |es| == g.nonterminals
  {
  }

  lemma TableSpeaks(meaning: Meaning, table: TerminalTable, i: nat)
    requires table.Valid(meaning) && i < |table.terminals|
    ensures forall w: Word :: Matches(table.terminals[i], w) <==> Speaks(meaning, table.languages[i], w)
  {
    assert TerminalSpeaks(meaning, table.terminals[i], table.languages[i]);
  }

  method CollapseRhs(ghost meaning: Meaning, g: Grammar, es: Expressions, remap: Renumbering, compile: Compiler,
      limits: GrammarLimits, table: TerminalTable, rhs: seq<Symbol>)
    returns (r: Result<seq<Symbol>>)
    requires AllExact(meaning, g, es) && CompilesExactly(meaning, compile)
    requires forall s <- rhs :: SymbolInRange(s, g.nonterminals, |g.terminals|)
    requires table.Valid(meaning) && table.Counted(compile) && FromGrammar(g, es, table.languages)
    modifies table
    ensures table.Valid(meaning) && old(table.terminals) <= table.terminals && FromGrammar(g, es, table.languages)
    ensures r.Ok? ==> RhsCollapses(CfgFor(meaning, g), remap, table.terminals, rhs, r.value)
    ensures r.Ok? ==> table.Counted(compile)
                      && (table.dfaStates == old(table.dfaStates) || table.dfaStates <= limits.maxTerminalDfaStates)
    ensures r.Err? ==> TerminalFails(g, es, compile, limits, r.error)
                       || (r.error.InternalError? && RhsBlocked(CfgFor(meaning, g), es, remap, rhs))
  {
    hide AllExact, CompilesExactly, TerminalFails, CfgFor, SymbolCollapses, Blocked, TerminalTable.Valid, FromGrammar,
      TerminalTable.Counted;
    ExpressionsSize(meaning, g, es);
    var symbols: seq<Symbol> := [];
    for i := 0 to |rhs|
      invariant table.Valid(meaning) && old(table.terminals) <= table.terminals && FromGrammar(g, es, table.languages)
      invariant table.Counted(compile)
      invariant table.dfaStates == old(table.dfaStates) || table.dfaStates <= limits.maxTerminalDfaStates
      invariant RhsCollapses(CfgFor(meaning, g), remap, table.terminals, rhs[..i], symbols)
    {
      assert rhs[i] in rhs && rhs[..i + 1] == rhs[..i] + [rhs[i]];
      ghost var before := table.terminals;
      var symbol := CollapseSymbol(meaning, g, es, remap, compile, limits, table, rhs[i]);
      if symbol.Err? {
        return Err(symbol.error);
      }
      RhsCollapsesMore(CfgFor(meaning, g), remap, before, table.terminals, rhs[..i], symbols);
      symbols := symbols + [symbol.value];
    }
    assert rhs[..|rhs|] == rhs;
    return Ok(symbols);
  }

  // ---------- The productions ----------

  ghost predicate ProductionCollapses(c: Cfg, remap: Renumbering, terminals: seq<CompiledTerminal>, p: Production,
      p': Production)
  {
    Retains(remap, p.lhs) && p'.lhs == remap[p.lhs].value && RhsCollapses(c, remap, terminals, p.rhs, p'.rhs)
  }

  // The first `upto` productions: each residual one comes from its origin, and none with a retained lhs is missing.
  ghost predicate Collapsing(c: Cfg, remap: Renumbering, terminals: seq<CompiledTerminal>, origins: seq<nat>,
      productions: seq<Production>, upto: nat)
  {
    && |origins| == |productions| && upto <= |c.productions|
    && (forall i: nat :: i < |origins| ==>
          origins[i] < upto && ProductionCollapses(c, remap, terminals, c.productions[origins[i]], productions[i]))
    && (forall p: nat :: p < upto && Retains(remap, c.productions[p].lhs) ==> p in origins)
  }

  lemma FirstOrigin(c: Cfg, remap: Renumbering, terminals: seq<CompiledTerminal>, origins: seq<nat>,
      productions: seq<Production>, upto: nat)
    requires Collapsing(c, remap, terminals, origins, productions, upto) && productions != []
    ensures 0 < upto
  {
    assert origins[0] < upto;
  }

  lemma CollapsingMore(c: Cfg, remap: Renumbering, terminals: seq<CompiledTerminal>, more: seq<CompiledTerminal>,
      origins: seq<nat>, productions: seq<Production>, p: nat, rhs: seq<Symbol>)
    requires Collapsing(c, remap, terminals, origins, productions, p) && terminals <= more && p < |c.productions|
    requires Retains(remap, c.productions[p].lhs) && RhsCollapses(c, remap, more, c.productions[p].rhs, rhs)
    ensures Collapsing(c, remap, more, origins + [p],
            productions + [Production(remap[c.productions[p].lhs].value, rhs)], p + 1)
  {
    hide RhsCollapses;
    forall i: nat | i < |origins|
      ensures ProductionCollapses(c, remap, more, c.productions[origins[i]], productions[i])
    {
      RhsCollapsesMore(c, remap, terminals, more, c.productions[origins[i]].rhs, productions[i].rhs);
    }
  }

  ghost predicate SomeBlocked(c: Cfg, es: Expressions, remap: Renumbering) {
    exists p: nat ::
      p < |c.productions| && Retains(remap, c.productions[p].lhs) && RhsBlocked(c, es, remap, c.productions[p].rhs)
  }

  // The productions collapsed so far, or their symbols, are more than the limit.
  ghost predicate ProductionsOver(c: Cfg, remap: Renumbering, limits: GrammarLimits, e: CompileError) {
    exists terminals, origins, productions, upto: nat ::
      Collapsing(c, remap, terminals, origins, productions, upto) && CountOver(productions, limits, e)
  }

  predicate CountOver(productions: seq<Production>, limits: GrammarLimits, e: CompileError) {
    && e.ResourceLimitExceeded? && e.stage == ResidualGrammarStage && e.observed > e.limit
    && (|| (e.limit == limits.maxProductions && e.observed == |productions|)
        || (e.limit == limits.maxRhsSymbols && e.observed == RhsTotal(productions)))
  }

  lemma NothingCollapsed(c: Cfg, remap: Renumbering, terminals: seq<CompiledTerminal>)
    ensures Collapsing(c, remap, terminals, [], [], 0) && RhsTotal([]) == 0
  {
  }

  lemma CollapsingSkips(c: Cfg, remap: Renumbering, terminals: seq<CompiledTerminal>, origins: seq<nat>,
      productions: seq<Production>, p: nat)
    requires Collapsing(c, remap, terminals, origins, productions, p) && p < |c.productions|
    requires !Retains(remap, c.productions[p].lhs)
    ensures Collapsing(c, remap, terminals, origins, productions, p + 1)
  {
    hide ProductionCollapses;
  }

  method CollapseProductions(ghost meaning: Meaning, g: Grammar, es: Expressions, remap: Renumbering,
      compile: Compiler, limits: GrammarLimits, table: TerminalTable)
    returns (r: Result<seq<Production>>, ghost origins: seq<nat>)
    requires InRange(g) && AllExact(meaning, g, es) && CompilesExactly(meaning, compile)
    requires table.Valid(meaning) && table.Counted(compile) && FromGrammar(g, es, table.languages)
    modifies table
    ensures table.Valid(meaning) && FromGrammar(g, es, table.languages)
    ensures r.Ok? ==> Collapsing(CfgFor(meaning, g), remap, table.terminals, origins, r.value, |g.productions|)
    ensures r.Ok? ==>
            && |r.value| <= limits.maxProductions && RhsTotal(r.value) <= limits.maxRhsSymbols
            && table.Counted(compile)
            && (table.dfaStates == old(table.dfaStates) || table.dfaStates <= limits.maxTerminalDfaStates)
    ensures r.Err? ==>
            || TerminalFails(g, es, compile, limits, r.error)
            || ProductionsOver(CfgFor(meaning, g), remap, limits, r.error)
            || (r.error.InternalError? && SomeBlocked(CfgFor(meaning, g), es, remap))
  {
    hide AllExact, CompilesExactly, TerminalFails, RhsCollapses, RhsBlocked, TerminalTable.Valid, FromGrammar,
      InRange, ProductionCollapses, RhsTotal, Collapsing, TerminalTable.Counted;
    ExpressionsSize(meaning, g, es);
    ghost var c := CfgFor(meaning, g);
    var productions: seq<Production>, rhsSymbols := [], 0;
    origins := [];
    NothingCollapsed(c, remap, table.terminals);
    for p := 0 to |g.productions|
      invariant table.Valid(meaning) && table.Counted(compile) && FromGrammar(g, es, table.languages)
      invariant table.dfaStates == old(table.dfaStates) || table.dfaStates <= limits.maxTerminalDfaStates
      invariant Collapsing(c, remap, table.terminals, origins, productions, p)
      invariant |productions| <= limits.maxProductions && rhsSymbols == RhsTotal(productions) <= limits.maxRhsSymbols
    {
      ProductionKnown(g, p);
      var production := g.productions[p];
      if Retains(remap, production.lhs) {
        ghost var before := table.terminals;
        var rhs := CollapseRhs(meaning, g, es, remap, compile, limits, table, production.rhs);
        if rhs.Err? {
          return Err(rhs.error), origins;
        }
        CollapsingMore(c, remap, before, table.terminals, origins, productions, p, rhs.value);
        RhsTotalMore(productions, Production(remap[production.lhs].value, rhs.value));
        ghost var more := productions + [Production(remap[production.lhs].value, rhs.value)];
        assert Collapsing(c, remap, table.terminals, origins + [p], more, p + 1);
        rhsSymbols := rhsSymbols + |rhs.value|;
        if rhsSymbols > limits.maxRhsSymbols {
          return Err(ResourceLimitExceeded(ResidualGrammarStage, rhsSymbols, limits.maxRhsSymbols)), origins;
        }
        if |productions| + 1 > limits.maxProductions {
          return Err(ResourceLimitExceeded(ResidualGrammarStage, |productions| + 1, limits.maxProductions)), origins;
        }
        productions := productions + [Production(remap[production.lhs].value, rhs.value)];
        origins := origins + [p];
      } else {
        CollapsingSkips(c, remap, table.terminals, origins, productions, p);
      }
    }
    return Ok(productions), origins;
  }

  // ---------- The residual grammar ----------

  // Some terminal of the grammar matches the empty word.
  ghost predicate SomeTerminalEmpty(meaning: Meaning, g: Grammar) {
    exists t :: t in g.terminals && [] in t.Language(meaning)
  }

  // Nothing is blocked unless some terminal matches the empty word.
  lemma NothingBlocked(meaning: Meaning, g: Grammar, es: Expressions, nullable: seq<bool>, retained: seq<bool>)
    requires InRange(g) && |nullable| == |retained| == |es| == g.nonterminals
    requires NullableFor(CfgFor(meaning, g), nullable) && RetainsClosed(g, nullable, retained, |g.productions|)
    requires forall a: nat :: a < |es| && es[a].None? ==> retained[a]
    ensures SomeBlocked(CfgFor(meaning, g), es, Renumber(retained)) ==> SomeTerminalEmpty(meaning, g)
  {
    hide NullableFor, Blocked;
    var c := CfgFor(meaning, g);
    RenumberExact(retained);
    if SomeBlocked(c, es, Renumber(retained)) && !SomeTerminalEmpty(meaning, g) {
      TerminalsNeverEmpty(meaning, g);
      var p: nat :| p < |c.productions| && Retains(Renumber(retained), c.productions[p].lhs)
        && RhsBlocked(c, es, Renumber(retained), c.productions[p].rhs);
      var s :| s in c.productions[p].rhs && Blocked(c, es, Renumber(retained), s);
      ProductionKnown(g, p);
      assert ClosedFor(nullable, retained, c.productions[p].rhs);
      NotBlocked(meaning, g, es, nullable, retained, s);
    }
  }

  lemma TerminalsNeverEmpty(meaning: Meaning, g: Grammar)
    requires !SomeTerminalEmpty(meaning, g)
    ensures TerminalsNonempty(CfgFor(meaning, g))
  {
    forall t: nat | t < |g.terminals| ensures [] !in CfgFor(meaning, g).languages[t] {
      assert g.terminals[t] in g.terminals;
    }
  }

  lemma NotBlocked(meaning: Meaning, g: Grammar, es: Expressions, nullable: seq<bool>, retained: seq<bool>, s: Symbol)
    requires |nullable| == |retained| == |es| == g.nonterminals && SymbolInRange(s, g.nonterminals, |g.terminals|)
    requires NullableFor(CfgFor(meaning, g), nullable) && TerminalsNonempty(CfgFor(meaning, g))
    requires s.Nonterminal? && nullable[s.id] ==> retained[s.id]
    requires forall a: nat :: a < |es| && es[a].None? ==> retained[a]
    ensures !Blocked(CfgFor(meaning, g), es, Renumber(retained), s)
  {
    RenumberExact(retained);
    match s
    case Terminal(t) => DerivesTerminal(CfgFor(meaning, g), t, []);
    case Nonterminal(a) => DerivesNonterminal(CfgFor(meaning, g), a, []);
  }

  lemma CollapsedSymbolMaps(meaning: Meaning, g: Grammar, remap: Renumbering, residual: R.ResidualGrammar, s: Symbol,
      s': Symbol)
    requires SymbolCollapses(CfgFor(meaning, g), remap, residual.terminals, s, s')
    ensures SymbolMaps(CfgFor(meaning, g), R.AsCfg(residual), remap, s, s')
  {
    if !Stays(remap, s) {
      forall w: Word ensures w in Languages(residual.terminals)[s'.id] <==> Matches(residual.terminals[s'.id], w) {
      }
    }
  }

  lemma CollapsedProductionMaps(meaning: Meaning, g: Grammar, remap: Renumbering, residual: R.ResidualGrammar,
      origins: seq<nat>, i: nat)
    requires Collapsing(CfgFor(meaning, g), remap, residual.terminals, origins, residual.productions, |g.productions|)
    requires i < |origins|
    ensures ProductionMaps(CfgFor(meaning, g), R.AsCfg(residual), remap, origins[i], i)
  {
    var c := CfgFor(meaning, g);
    var p, p' := c.productions[origins[i]], residual.productions[i];
    assert ProductionCollapses(c, remap, residual.terminals, p, p');
    forall k | 0 <= k < |p.rhs| ensures SymbolMaps(c, R.AsCfg(residual), remap, p.rhs[k], p'.rhs[k]) {
      CollapsedSymbolMaps(meaning, g, remap, residual, p.rhs[k], p'.rhs[k]);
    }
  }

  lemma CollapsedIsImage(meaning: Meaning, g: Grammar, remap: Renumbering, residual: R.ResidualGrammar,
      origins: seq<nat>)
    requires Collapsing(CfgFor(meaning, g), remap, residual.terminals, origins, residual.productions, |g.productions|)
    requires Injective(remap)
    ensures ImageOf(CfgFor(meaning, g), R.AsCfg(residual), remap)
  {
    hide ProductionMaps, ProductionCollapses, DerivesSomething;
    var c := CfgFor(meaning, g);
    forall i: nat | i < |residual.productions| ensures HasOrigin(c, R.AsCfg(residual), remap, i) {
      CollapsedProductionMaps(meaning, g, remap, residual, origins, i);
    }
    forall p: nat | p < |c.productions| && Retains(remap, c.productions[p].lhs)
      ensures HasImage(c, R.AsCfg(residual), remap, p)
    {
      var i: nat :| i < |origins| && origins[i] == p;
      CollapsedProductionMaps(meaning, g, remap, residual, origins, i);
    }
  }

  lemma CollapsedInRange(meaning: Meaning, g: Grammar, retained: seq<bool>, terminals: seq<CompiledTerminal>,
      origins: seq<nat>, productions: seq<Production>, i: nat)
    requires Collapsing(CfgFor(meaning, g), Renumber(retained), terminals, origins, productions, |g.productions|)
    requires i < |productions|
    ensures ProductionInRange(productions[i], Count(retained), |terminals|)
  {
    var c := CfgFor(meaning, g);
    RenumberExact(retained);
    var p := c.productions[origins[i]];
    assert ProductionCollapses(c, Renumber(retained), terminals, p, productions[i]);
    forall k | 0 <= k < |productions[i].rhs|
      ensures SymbolInRange(productions[i].rhs[k], Count(retained), |terminals|)
    {
      assert SymbolCollapses(c, Renumber(retained), terminals, p.rhs[k], productions[i].rhs[k]);
    }
  }

  // Only the start, what has no certificate and what derives the empty word is retained: every other certified region
  // becomes a terminal wherever it occurs.
  ghost predicate RetainsOnly(meaning: Meaning, g: Grammar, es: Expressions, remap: Renumbering) {
    forall a: nat :: a < |es| && Retains(remap, a) ==>
      a == g.start || es[a].None? || Generates(CfgFor(meaning, g), a, [])
  }

  // The productions of what is retained, each once collapsed: retained nonterminals renumbered, everything else a
  // terminal with its language.
  ghost predicate CollapsedProductions(meaning: Meaning, g: Grammar, remap: Renumbering, residual: R.ResidualGrammar) {
    exists origins ::
      Collapsing(CfgFor(meaning, g), remap, residual.terminals, origins, residual.productions, |g.productions|)
  }

  // Every retained nonterminal derives what it did, the start among them; what has no certificate is retained, and of
  // the rest only what may be empty.
  ghost predicate Collapses(meaning: Meaning, g: Grammar, es: Expressions, remap: Renumbering,
      residual: R.ResidualGrammar)
  {
    && R.WellFormed(residual) && RetainsOnly(meaning, g, es, remap)
    && CollapsedProductions(meaning, g, remap, residual)
    && Retains(remap, g.start) && residual.start == remap[g.start].value
    && (forall a: nat, w: Word :: Retains(remap, a) ==>
          (Generates(CfgFor(meaning, g), a, w) <==> Generates(R.AsCfg(residual), remap[a].value, w)))
    && (forall a: nat :: a < |es| && es[a].None? ==> Retains(remap, a))
  }

  ghost predicate Assembled(meaning: Meaning, g: Grammar, es: Expressions, retained: seq<bool>,
      residual: R.ResidualGrammar, origins: seq<nat>)
  {
    && |retained| == |es| == g.nonterminals && g.start < |retained| && retained[g.start]
    && (forall a: nat :: a < |es| && es[a].None? ==> retained[a])
    && RetainsOnly(meaning, g, es, Renumber(retained))
    && residual.nonterminals == Count(retained) && Retains(Renumber(retained), g.start)
    && residual.start == Renumber(retained)[g.start].value
    && Collapsing(CfgFor(meaning, g), Renumber(retained), residual.terminals, origins, residual.productions,
       |g.productions|)
    && Grouped(residual.nonterminals, residual.productions, residual.productionsByLhs)
    && |residual.nullable| == residual.nonterminals && NullableFor(R.AsCfg(residual), residual.nullable)
    && (forall t <- residual.terminals :: WellFormedTerminal(t))
  }

  lemma AssembledInRange(meaning: Meaning, g: Grammar, es: Expressions, retained: seq<bool>,
      residual: R.ResidualGrammar, origins: seq<nat>)
    requires Assembled(meaning, g, es, retained, residual, origins)
    ensures R.InRange(residual)
  {
    hide Collapsing, NullableFor, WellFormedTerminal;
    RenumberExact(retained);
    forall p | p in residual.productions ensures ProductionInRange(p, residual.nonterminals, |residual.terminals|) {
      var i: nat :| i < |residual.productions| && residual.productions[i] == p;
      CollapsedInRange(meaning, g, retained, residual.terminals, origins, residual.productions, i);
    }
  }

  lemma AssembledWellFormed(meaning: Meaning, g: Grammar, es: Expressions, retained: seq<bool>,
      residual: R.ResidualGrammar, origins: seq<nat>)
    requires Assembled(meaning, g, es, retained, residual, origins)
    ensures R.WellFormed(residual)
  {
    hide Collapsing;
    AssembledInRange(meaning, g, es, retained, residual, origins);
    NeverEmpty(residual);
    forall a: nat, p: nat | a < residual.nonterminals
      ensures p in residual.productionsByLhs[a] <==> p < |residual.productions| && residual.productions[p].lhs == a
    {
      if p in residual.productionsByLhs[a] {
        var k: nat :| k < |residual.productionsByLhs[a]| && residual.productionsByLhs[a][k] == p;
      }
    }
  }

  lemma NeverEmpty(residual: R.ResidualGrammar)
    requires forall t <- residual.terminals :: WellFormedTerminal(t)
    ensures TerminalsNonempty(R.AsCfg(residual))
  {
    forall t: nat | t < |residual.terminals| ensures [] !in Languages(residual.terminals)[t] {
      assert residual.terminals[t] in residual.terminals;
    }
  }

  lemma AssembledCollapses(meaning: Meaning, g: Grammar, es: Expressions, retained: seq<bool>,
      residual: R.ResidualGrammar, origins: seq<nat>)
    requires Assembled(meaning, g, es, retained, residual, origins)
    ensures Collapses(meaning, g, es, Renumber(retained), residual)
  {
    hide Collapsing, NullableFor, Grouped, R.WellFormed, ImageOf, RetainsOnly;
    AssembledWellFormed(meaning, g, es, retained, residual, origins);
    RenumberExact(retained);
    CollapsedIsImage(meaning, g, Renumber(retained), residual, origins);
    forall a: nat, w: Word | Retains(Renumber(retained), a)
      ensures Generates(CfgFor(meaning, g), a, w) <==> Generates(R.AsCfg(residual), Renumber(retained)[a].value, w)
    {
      ImagePreserves(CfgFor(meaning, g), R.AsCfg(residual), Renumber(retained), a, w);
    }
  }

  // ---------- Productivity ----------

  ghost predicate EverythingDerives(meaning: Meaning, g: Grammar) {
    GR.TerminalsMatch(meaning, g) && forall a: nat :: a < g.nonterminals ==> GeneratesSome(CfgFor(meaning, g), a)
  }

  lemma TerminalMatchesSome(meaning: Meaning, g: Grammar, es: Expressions, t: CompiledTerminal, l: TerminalLanguage)
    requires AllExact(meaning, g, es) && |es| == g.nonterminals && SymbolSpeaking(g, es, l)
    requires TerminalSpeaks(meaning, t, l)
    requires EverythingDerives(meaning, g)
    ensures R.MatchesSome(t)
  {
    hide AllExact, Speaks, WellFormedTerminal, EverythingDerives;
    var s :| SymbolInRange(s, g.nonterminals, |g.terminals|) && CollapsesTo(g, es, s) == Some(l);
    var w := SymbolWord(meaning, g, s);
    CollapseSpeaks(meaning, g, es, s, w);
    assert Matches(t, w);
  }

  lemma SymbolWord(meaning: Meaning, g: Grammar, s: Symbol) returns (w: Word)
    requires SymbolInRange(s, g.nonterminals, |g.terminals|) && EverythingDerives(meaning, g)
    ensures Derives(CfgFor(meaning, g), [s], w)
  {
    match s
    case Terminal(t) =>
      assert g.terminals[t] in g.terminals;
      w :| w in g.terminals[t].Language(meaning);
      DerivesTerminal(CfgFor(meaning, g), t, w);
    case Nonterminal(a) =>
      assert GeneratesSome(CfgFor(meaning, g), a);
      w :| Generates(CfgFor(meaning, g), a, w);
      DerivesNonterminal(CfgFor(meaning, g), a, w);
  }

  ghost predicate TableFrom(meaning: Meaning, g: Grammar, es: Expressions, terminals: seq<CompiledTerminal>,
      languages: seq<TerminalLanguage>)
    requires |es| == g.nonterminals
  {
    |languages| == |terminals| && FromGrammar(g, es, languages)
      && forall i: nat :: i < |terminals| ==> TerminalSpeaks(meaning, terminals[i], languages[i])
  }

  // Collapsing a grammar whose symbols all derive something leaves one whose symbols all derive something.
  lemma CollapseProductive(meaning: Meaning, g: Grammar, es: Expressions, retained: seq<bool>,
      residual: R.ResidualGrammar, origins: seq<nat>, languages: seq<TerminalLanguage>)
    requires Assembled(meaning, g, es, retained, residual, origins) && AllExact(meaning, g, es)
    requires |es| == g.nonterminals
    requires TableFrom(meaning, g, es, residual.terminals, languages) && EverythingDerives(meaning, g)
    ensures R.Productive(residual)
  {
    hide AllExact, GeneratesSome, R.MatchesSome, Assembled, TerminalSpeaks, SymbolSpeaking, EverythingDerives,
      Collapses;
    AssembledCollapses(meaning, g, es, retained, residual, origins);
    AssembledSizes(meaning, g, es, retained, residual, origins);
    forall b: nat | b < residual.nonterminals ensures GeneratesSome(R.AsCfg(residual), b) {
      RetainedGenerates(meaning, g, es, retained, residual, b);
    }
    forall t | t in residual.terminals ensures R.MatchesSome(t) {
      var i: nat :| i < |residual.terminals| && residual.terminals[i] == t;
      assert languages[i] in languages;
      TerminalMatchesSome(meaning, g, es, t, languages[i]);
    }
  }

  lemma AssembledSizes(meaning: Meaning, g: Grammar, es: Expressions, retained: seq<bool>, residual: R.ResidualGrammar,
      origins: seq<nat>)
    requires Assembled(meaning, g, es, retained, residual, origins)
    ensures |retained| == g.nonterminals && residual.nonterminals == Count(retained)
  {
  }

  lemma RetainedGenerates(meaning: Meaning, g: Grammar, es: Expressions, retained: seq<bool>,
      residual: R.ResidualGrammar, b: nat)
    requires Collapses(meaning, g, es, Renumber(retained), residual) && |retained| == g.nonterminals
    requires b < Count(retained)
    requires EverythingDerives(meaning, g)
    ensures GeneratesSome(R.AsCfg(residual), b)
  {
    hide Collapses, Renumber, Count, CfgFor, GR.TerminalsMatch, Generates, R.AsCfg;
    var a := RenumberOnto(retained, b);
    RenumberExact(retained);
    assert GeneratesSome(CfgFor(meaning, g), a);
    var w: Word :| Generates(CfgFor(meaning, g), a, w);
    CollapsedGenerates(meaning, g, es, Renumber(retained), residual, a, w);
  }

  lemma CollapsedGenerates(meaning: Meaning, g: Grammar, es: Expressions, remap: Renumbering,
      residual: R.ResidualGrammar, a: nat, w: Word)
    requires Collapses(meaning, g, es, remap, residual) && Retains(remap, a)
    ensures Generates(CfgFor(meaning, g), a, w) <==> Generates(R.AsCfg(residual), remap[a].value, w)
  {
    hide R.WellFormed;
  }

  // ---------- The whole construction ----------

  ghost predicate CertifiedHaveExpressions(analysis: SccAnalysis, outcomes: RC.Outcomes, es: Expressions) {
    forall a: nat :: a < |es| && a < |analysis.componentOf| ==>
      (es[a].Some? <==> RC.Succeeded(outcomes, analysis.componentOf[a]))
  }

  lemma OutcomesHaveExpressions(g: Grammar, analysis: SccAnalysis, outcomes: RC.Outcomes, es: Expressions)
    requires Partitions(g, analysis) && RC.OutcomesFor(g, analysis, outcomes, es)
    ensures |analysis.componentOf| == g.nonterminals && CertifiedHaveExpressions(analysis, outcomes, es)
  {
    hide RC.Justified;
    forall a: nat | a < |es| && a < |analysis.componentOf|
      ensures es[a].Some? <==> RC.Succeeded(outcomes, analysis.componentOf[a])
    {
      assert analysis.componentOf[a] < |outcomes|;
    }
  }

  lemma StartInRange(g: Grammar)
    requires InRange(g)
    ensures g.start < g.nonterminals && forall p: nat :: p < |g.productions| ==> g.productions[p].lhs < g.nonterminals
  {
    GR.ProductionsKnown(g);
  }

  lemma CfgParts(meaning: Meaning, g: Grammar)
    ensures CfgFor(meaning, g).productions == g.productions
  {
  }

  lemma NothingSpoken(g: Grammar, es: Expressions)
    requires |es| == g.nonterminals
    ensures FromGrammar(g, es, [])
  {
  }

  lemma CollapsedLhs(meaning: Meaning, g: Grammar, retained: seq<bool>, terminals: seq<CompiledTerminal>,
      origins: seq<nat>, productions: seq<Production>)
    requires Collapsing(CfgFor(meaning, g), Renumber(retained), terminals, origins, productions, |g.productions|)
    ensures forall p: nat :: p < |productions| ==> productions[p].lhs < Count(retained)
  {
    forall p: nat | p < |productions| ensures productions[p].lhs < Count(retained) {
      CollapsedInRange(meaning, g, retained, terminals, origins, productions, p);
    }
  }

  lemma StartRetained(retained: seq<bool>, start: nat)
    requires start < |retained| && retained[start]
    ensures Retains(Renumber(retained), start)
  {
    RenumberExact(retained);
  }

  lemma TableWellFormed(meaning: Meaning, g: Grammar, es: Expressions, table: TerminalTable)
    requires |es| == g.nonterminals && table.Valid(meaning) && FromGrammar(g, es, table.languages)
    ensures TableFrom(meaning, g, es, table.terminals, table.languages)
    ensures forall t <- table.terminals :: WellFormedTerminal(t)
  {
    hide FromGrammar, WellFormedTerminal;
    forall t | t in table.terminals ensures WellFormedTerminal(t) {
      var i: nat :| i < |table.terminals| && table.terminals[i] == t;
      assert TerminalSpeaks(meaning, table.terminals[i], table.languages[i]);
    }
  }

  lemma AssembledHere(meaning: Meaning, g: Grammar, es: Expressions, retained: seq<bool>, residual: R.ResidualGrammar,
      origins: seq<nat>)
    requires |retained| == |es| == g.nonterminals && g.start < |retained| && retained[g.start]
    requires forall a: nat :: a < |es| && es[a].None? ==> retained[a]
    requires RetainsOnly(meaning, g, es, Renumber(retained))
    requires residual.nonterminals == Count(retained) && Retains(Renumber(retained), g.start)
    requires residual.start == Renumber(retained)[g.start].value
    requires Collapsing(CfgFor(meaning, g), Renumber(retained), residual.terminals, origins, residual.productions,
             |g.productions|)
    requires Grouped(residual.nonterminals, residual.productions, residual.productionsByLhs)
    requires |residual.nullable| == residual.nonterminals
    requires NullableFor(Cfg(residual.start, residual.nonterminals, residual.productions,
             Languages(residual.terminals)), residual.nullable)
    requires forall t <- residual.terminals :: WellFormedTerminal(t)
    ensures Assembled(meaning, g, es, retained, residual, origins)
  {
    hide Collapsing, Grouped, NullableFor, WellFormedTerminal, CfgFor, Languages, RetainsOnly;
  }

  lemma ClosureRetainsOnly(meaning: Meaning, g: Grammar, es: Expressions, nullable: seq<bool>, retained: seq<bool>)
    requires |nullable| == |retained| == |es| && NullableFor(CfgFor(meaning, g), nullable)
    requires forall a: nat :: a < |retained| && retained[a] && a != g.start && es[a].Some? ==> nullable[a]
    ensures RetainsOnly(meaning, g, es, Renumber(retained))
  {
    hide CfgFor, Generates, TerminalsNonempty;
    RenumberExact(retained);
  }

  // What is retained: the start, what has no certificate, and of the rest only what derives the empty word.
  ghost predicate Keeps(meaning: Meaning, g: Grammar, es: Expressions, retained: seq<bool>) {
    && |retained| == |es| == g.nonterminals && g.start < |retained| && retained[g.start]
    && (forall a: nat :: a < |es| && es[a].None? ==> retained[a])
    && RetainsOnly(meaning, g, es, Renumber(retained))
  }

  // A part of the residual grammar is over its limit: the nonterminals retained, the productions, or the terminals.
  ghost predicate ResidualOver(meaning: Meaning, g: Grammar, es: Expressions, retained: seq<bool>, compile: Compiler,
      limits: GrammarLimits, e: CompileError)
    requires |es| == g.nonterminals
  {
    || (Count(retained) > limits.maxSymbols
        && e == ResourceLimitExceeded(ResidualGrammarStage, limits.maxSymbols + 1, limits.maxSymbols))
    || ProductionsOver(CfgFor(meaning, g), Renumber(retained), limits, e)
    || TerminalFails(g, es, compile, limits, e)
  }

  ghost predicate ResidualFails(meaning: Meaning, g: Grammar, compile: Compiler, limits: GrammarLimits,
      e: CompileError)
  {
    exists es, retained ::
      AllExact(meaning, g, es) && Keeps(meaning, g, es, retained)
      && ResidualOver(meaning, g, es, retained, compile, limits, e)
  }

  // The sizes of a residual grammar are within the limits.
  ghost predicate ResidualWithin(residual: R.ResidualGrammar, limits: GrammarLimits) {
    && residual.nonterminals <= limits.maxSymbols && |residual.productions| <= limits.maxProductions
    && RhsTotal(residual.productions) <= limits.maxRhsSymbols
    && Total(Sizes(residual.terminals)) <= limits.maxTerminalDfaStates
  }

  // The residual grammar derives what the grammar does; no failure is the construction's own unless some terminal
  // matches the empty word.
  method BuildResidual(ghost meaning: Meaning, g: Grammar, analysis: SccAnalysis, outcomes: RC.Outcomes,
      es: Expressions, compile: Compiler, limits: GrammarLimits)
    returns (r: Result<R.ResidualGrammar>, ghost remap: Renumbering)
    requires InRange(g) && Partitions(g, analysis) && RC.OutcomesFor(g, analysis, outcomes, es)
    requires AllExact(meaning, g, es) && CompilesExactly(meaning, compile)
    ensures r.Ok? ==> Collapses(meaning, g, es, remap, r.value)
    ensures r.Ok? && EverythingDerives(meaning, g) ==> R.Productive(r.value)
    ensures r.Ok? ==> ResidualWithin(r.value, limits)
    ensures r.Err? ==> ResidualFails(meaning, g, compile, limits, r.error)
                       || (r.error.InternalError? && SomeTerminalEmpty(meaning, g))
  {
    hide InRange, Partitions, RC.OutcomesFor, AllExact, CompilesExactly, Collapses, R.Productive, EverythingDerives;
    hide SomeTerminalEmpty, NullableFor, RhsTotal, RetainsClosed, RetainsOnly, Collapsing, Assembled, SomeBlocked,
      TerminalTable.Valid, TerminalTable.Counted, TableFrom, FromGrammar, CfgFor, R.AsCfg, TerminalFails,
      ProductionsOver;
    OutcomesHaveExpressions(g, analysis, outcomes, es);
    ExpressionsSize(meaning, g, es);
    StartInRange(g);
    CfgParts(meaning, g);
    var nullable := NullableNonterminals(CfgFor(meaning, g), g.nonterminals, g.productions);
    var initial :=
      seq(g.nonterminals, a requires 0 <= a < g.nonterminals => a == g.start
      || !RC.Succeeded(outcomes, analysis.componentOf[a]));
    var retained := CloseRetained(g, nullable, initial);
    var renumbering, originals := GrammarReducer.KeepInOrder(seq(g.nonterminals, a => a), retained);
    remap := renumbering;
    ClosureRetainsOnly(meaning, g, es, nullable, retained);
    assert Keeps(meaning, g, es, retained);
    if |originals| > limits.maxSymbols {
      return Err(ResourceLimitExceeded(ResidualGrammarStage, limits.maxSymbols + 1, limits.maxSymbols)), remap;
    }
    var table := new TerminalTable();
    NothingSpoken(g, es);
    var productions, origins := CollapseProductions(meaning, g, es, renumbering, compile, limits, table);
    NothingBlocked(meaning, g, es, nullable, retained);
    if productions.Err? {
      return Err(productions.error), remap;
    }
    CollapsedLhs(meaning, g, retained, table.terminals, origins, productions.value);
    var byLhs := GroupByLhs(|originals|, productions.value);
    StartRetained(retained, g.start);
    var start := renumbering[g.start].value;
    ghost var cfg := Cfg(start, |originals|, productions.value, Languages(table.terminals));
    var residualNullable := NullableNonterminals(cfg, |originals|, productions.value);
    var residual := R.ResidualGrammar(start, |originals|, table.terminals, productions.value, byLhs, residualNullable);
    TableWellFormed(meaning, g, es, table);
    TableCounted(table, compile);
    AssembledHere(meaning, g, es, retained, residual, origins);
    AssembledCollapses(meaning, g, es, retained, residual, origins);
    if EverythingDerives(meaning, g) {
      CollapseProductive(meaning, g, es, retained, residual, origins, table.languages);
    }
    return Ok(residual), remap;
  }
}
