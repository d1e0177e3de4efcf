/**
 Reducing a grammar in place: what is productive and reachable is kept and renumbered in order, the rest goes.
 */
module GrammarReducer {
  import opened Grammars
  import opened CompileErrors
  import opened RegularExpressions
  import opened SchemaGrammars
  import opened GrammarMaps
  import opened GrammarReduction

  // ---------- What is kept ----------

  predicate AllRetained(retained: seq<bool>, rhs: seq<Symbol>) {
    forall s <- rhs :: s.Nonterminal? ==> s.id < |retained| && retained[s.id]
  }

  predicate Keeps(g: Grammar, retained: seq<bool>, p: nat) {
    && p < |g.productions| && g.productions[p].lhs < |retained| && retained[g.productions[p].lhs]
    && AllRetained(retained, g.productions[p].rhs)
  }

  method RetainedProductions(g: Grammar, retained: seq<bool>) returns (kept: seq<nat>)
    ensures forall p: nat :: p in kept <==> Keeps(g, retained, p)
  {
    kept := [];
    for p := 0 to |g.productions|
      invariant forall q: nat :: q in kept <==> q < p && Keeps(g, retained, q)
    {
      if Keeps(g, retained, p) {
        kept := kept + [p];
      }
    }
  }

  // Some kept production mentions terminal `t`.
  ghost predicate Mentioned(g: Grammar, kept: seq<nat>, t: nat) {
    exists k :: 0 <= k < |kept| && kept[k] < |g.productions| && Terminal(t) in g.productions[kept[k]].rhs
  }

  method UsedTerminals(g: Grammar, kept: seq<nat>) returns (used: seq<bool>)
    requires InRange(g) && forall k :: 0 <= k < |kept| ==> kept[k] < |g.productions|
    ensures |used| == |g.terminals| && forall t: nat :: t < |used| ==> (used[t] <==> Mentioned(g, kept, t))
  {
    used := seq(|g.terminals|, _ => false);
    for k := 0 to |kept|
      invariant |used| == |g.terminals| && forall t: nat :: t < |used| ==> (used[t] <==> Mentioned(g, kept[..k], t))
    {
      var rhs := g.productions[kept[k]].rhs;
      ProductionKnown(g, kept[k]);
      for i := 0 to |rhs|
        invariant |used| == |g.terminals|
        invariant forall t: nat :: t < |used| ==> (used[t] <==> Mentioned(g, kept[..k], t) || Terminal(t) in rhs[..i])
      {
        assert rhs[i] in rhs && rhs[..i + 1] == rhs[..i] + [rhs[i]];
        if rhs[i].Terminal? {
          used := used[rhs[i].id := true];
        }
      }
      assert rhs[..|rhs|] == rhs;
      forall t: nat ensures Mentioned(g, kept[..k + 1], t) <==> Mentioned(g, kept[..k], t) || Terminal(t) in rhs {
        MentionedMore(g, kept, k, t);
      }
    }
    assert kept[..|kept|] == kept;
  }

  lemma MentionedMore(g: Grammar, kept: seq<nat>, k: nat, t: nat)
    requires k < |kept| && kept[k] < |g.productions|
    ensures Mentioned(g, kept[..k + 1], t) <==> Mentioned(g, kept[..k], t) || Terminal(t) in g.productions[kept[k]].rhs
  {
    assert kept[..k + 1] == kept[..k] + [kept[k]];
    if Mentioned(g, kept[..k], t) {
      var j :| 0 <= j < k && kept[..k][j] < |g.productions| && Terminal(t) in g.productions[kept[..k][j]].rhs;
      assert kept[..k + 1][j] == kept[j];
    }
    if Terminal(t) in g.productions[kept[k]].rhs {
      assert kept[..k + 1][k] == kept[k];
    }
  }

  // ---------- Renumbering ----------

  // The new ids, in order, and what carries them.
  method KeepInOrder<T>(items: seq<T>, keep: seq<bool>) returns (remap: Renumbering, kept: seq<T>)
    requires |items| == |keep|
    ensures remap == Renumber(keep) && |kept| == Count(keep)
    ensures forall a: nat :: a < |items| && keep[a] ==>
              Retains(remap, a) && remap[a].value < |kept| && kept[remap[a].value] == items[a]
  {
    remap, kept := [], [];
    for i := 0 to |items|
      invariant remap == Renumber(keep[..i]) && |kept| == Count(keep[..i]) && |remap| == i
      invariant forall a: nat :: a < i && keep[a] ==>
                  Retains(remap, a) && remap[a].value < |kept| && kept[remap[a].value] == items[a]
    {
      assert keep[..i + 1][..i] == keep[..i];
      if keep[i] {
        remap := remap + [Some(|kept|)];
        kept := kept + [items[i]];
      } else {
        remap := remap + [None];
      }
    }
    assert keep[..|items|] == keep;
  }

  function RenameSymbol(remap: Renumbering, terms: Renumbering, s: Symbol): Result<Symbol> {
    match s
    case Nonterminal(a) =>
      if Retains(remap, a) then Ok(Nonterminal(remap[a].value))
      else Err(InternalError("retained production references removed nonterminal"))
    case Terminal(t) =>
      if Retains(terms, t) then Ok(Terminal(terms[t].value))
      else Err(InternalError("retained production references removed terminal"))
  }

  ghost predicate Renames(remap: Renumbering, terms: Renumbering, alpha: seq<Symbol>, alpha': seq<Symbol>) {
    |alpha| == |alpha'| && forall k :: 0 <= k < |alpha| ==> RenameSymbol(remap, terms, alpha[k]) == Ok(alpha'[k])
  }

  ghost predicate Renamable(remap: Renumbering, terms: Renumbering, p: Production) {
    Retains(remap, p.lhs) && forall s <- p.rhs :: RenameSymbol(remap, terms, s).Ok?
  }

  ghost predicate RenamesProduction(remap: Renumbering, terms: Renumbering, p: Production, p': Production) {
    Retains(remap, p.lhs) && p'.lhs == remap[p.lhs].value && Renames(remap, terms, p.rhs, p'.rhs)
  }

  method RewriteProduction(remap: Renumbering, terms: Renumbering, p: Production) returns (r: Result<Production>)
    ensures r.Ok? <==> Renamable(remap, terms, p)
    ensures r.Ok? ==> RenamesProduction(remap, terms, p, r.value)
  {
    if !Retains(remap, p.lhs) {
      return Err(InternalError("retained production has removed lhs"));
    }
    var rhs: seq<Symbol> := [];
    for i := 0 to |p.rhs|
      invariant |rhs| == i && forall k :: 0 <= k < i ==> RenameSymbol(remap, terms, p.rhs[k]) == Ok(rhs[k])
    {
      var renamed := RenameSymbol(remap, terms, p.rhs[i]);
      if renamed.Err? {
        return Err(renamed.error);
      }
      rhs := rhs + [renamed.value];
    }
    return Ok(Production(remap[p.lhs].value, rhs));
  }

  method RewriteProductions(g: Grammar, kept: seq<nat>, remap: Renumbering, terms: Renumbering)
      returns (r: Result<seq<Production>>)
    requires forall k :: 0 <= k < |kept| ==> kept[k] < |g.productions|
    ensures r.Ok? <==> forall k :: 0 <= k < |kept| ==> Renamable(remap, terms, g.productions[kept[k]])
    ensures r.Ok? ==> |r.value| == |kept| && forall i :: 0 <= i < |kept| ==>
                                               RenamesProduction(remap, terms, g.productions[kept[i]], r.value[i])
  {
    hide Renamable, RenamesProduction;
    var productions: seq<Production> := [];
    for i := 0 to |kept|
      invariant |productions| == i
      invariant forall k :: 0 <= k < i ==> Renamable(remap, terms, g.productions[kept[k]])
      invariant forall k :: 0 <= k < i ==> RenamesProduction(remap, terms, g.productions[kept[k]], productions[k])
    {
      var rewritten := RewriteProduction(remap, terms, g.productions[kept[i]]);
      if rewritten.Err? {
        return Err(rewritten.error);
      }
      productions := productions + [rewritten.value];
    }
    return Ok(productions);
  }

  // The rewritten grammar: what is kept, renumbered in order.
  ghost predicate Rewrites(g: Grammar, retained: seq<bool>, kept: seq<nat>, used: seq<bool>, h: Grammar) {
    && |retained| == g.nonterminals && g.start < |retained| && retained[g.start] && |used| == |g.terminals|
    && (forall p: nat :: p in kept <==> Keeps(g, retained, p))
    && (forall t: nat :: t < |used| ==> (used[t] <==> Mentioned(g, kept, t)))
    && Retains(Renumber(retained), g.start) && h.start == Renumber(retained)[g.start].value
       && h.nonterminals == Count(retained)
    && |h.terminals| == Count(used)
    && (forall t: nat :: t < |used| && used[t] ==>
          Retains(Renumber(used), t) && Renumber(used)[t].value < |h.terminals|
            && h.terminals[Renumber(used)[t].value] == g.terminals[t])
    && |h.productions| == |kept|
    && (forall i :: 0 <= i < |kept| ==>
          kept[i] < |g.productions|
            && RenamesProduction(Renumber(retained), Renumber(used), g.productions[kept[i]], h.productions[i]))
  }

  lemma KeptRenamable(g: Grammar, retained: seq<bool>, kept: seq<nat>, used: seq<bool>, p: nat)
    requires InRange(g) && |retained| == g.nonterminals && |used| == |g.terminals| && p in kept && Keeps(g, retained, p)
    requires forall t: nat :: t < |used| ==> (used[t] <==> Mentioned(g, kept, t))
    ensures Renamable(Renumber(retained), Renumber(used), g.productions[p])
  {
    RenumberExact(retained);
    RenumberExact(used);
    ProductionKnown(g, p);
    forall s | s in g.productions[p].rhs ensures RenameSymbol(Renumber(retained), Renumber(used), s).Ok? {
      if s.Terminal? {
        var k :| 0 <= k < |kept| && kept[k] == p;
        assert Mentioned(g, kept, s.id);
      }
    }
  }

  // Neither remapping error arises: the only grammar that cannot be rewritten is one whose start is not retained.
  method RewriteGrammar(g: Grammar, retained: seq<bool>)
      returns (r: Result<Grammar>, ghost kept: seq<nat>, ghost used: seq<bool>)
    requires InRange(g) && |retained| == g.nonterminals
    ensures r.Ok? <==> retained[g.start]
    ensures r.Err? ==> r.error == InternalError("productive reachable start was removed")
    ensures r.Ok? ==> Rewrites(g, retained, kept, used, r.value)
  {
    hide Renamable, RenamesProduction, Keeps, Mentioned;
    var remap, ids := KeepInOrder(seq(g.nonterminals, i => i), retained);
    RenumberExact(retained);
    var keeps := RetainedProductions(g, retained);
    kept := keeps;
    KeepsInRange(g, retained, keeps);
    var uses := UsedTerminals(g, keeps);
    used := uses;
    var terms, terminals := KeepInOrder(g.terminals, uses);
    var productions := RewriteProductions(g, keeps, remap, terms);
    forall k | 0 <= k < |keeps| ensures Renamable(remap, terms, g.productions[keeps[k]]) {
      KeptRenamable(g, retained, keeps, uses, keeps[k]);
    }
    if remap[g.start].None? {
      assert !Retains(remap, g.start);
      return Err(InternalError("productive reachable start was removed")), kept, used;
    }
    assert Retains(remap, g.start);
    r := Ok(Grammar(remap[g.start].value, |ids|, terminals, productions.value));
  }

  lemma KeepsInRange(g: Grammar, retained: seq<bool>, kept: seq<nat>)
    requires forall p: nat :: p in kept <==> Keeps(g, retained, p)
    ensures forall k :: 0 <= k < |kept| ==> kept[k] < |g.productions| && Keeps(g, retained, kept[k])
  {
    forall k | 0 <= k < |kept| ensures Keeps(g, retained, kept[k]) {
      assert kept[k] in kept;
    }
  }

  // ---------- The rewritten grammar is an image ----------

  // Every production that can derive something and has a retained left-hand side is kept.
  ghost predicate KeepsDeriving(meaning: Meaning, g: Grammar, retained: seq<bool>) {
    forall p: nat :: p < |g.productions| && g.productions[p].lhs < |retained| && retained[g.productions[p].lhs] &&
                     DerivesSomething(CfgFor(meaning, g), g.productions[p].rhs) ==>
                       Keeps(g, retained, p)
  }

  lemma SymbolImage(meaning: Meaning, g: Grammar, retained: seq<bool>, kept: seq<nat>, used: seq<bool>, h: Grammar,
      s: Symbol, s': Symbol)
    requires Rewrites(g, retained, kept, used, h) && SymbolInRange(s, g.nonterminals, |g.terminals|)
    requires RenameSymbol(Renumber(retained), Renumber(used), s) == Ok(s')
    ensures SymbolMaps(CfgFor(meaning, g), CfgFor(meaning, h), Renumber(retained), s, s')
    ensures SymbolInRange(s', h.nonterminals, |h.terminals|)
  {
    RenumberExact(retained);
    RenumberExact(used);
    if s.Terminal? {
      forall w: Word ensures w in CfgFor(meaning, h).languages[s'.id] <==> Derives(CfgFor(meaning, g), [s], w) {
        DerivesTerminal(CfgFor(meaning, g), s.id, w);
      }
    }
  }

  lemma ProductionImage(meaning: Meaning, g: Grammar, retained: seq<bool>, kept: seq<nat>, used: seq<bool>, h: Grammar,
      i: nat)
    requires InRange(g) && Rewrites(g, retained, kept, used, h) && i < |kept|
    ensures kept[i] < |g.productions|
    ensures ProductionMaps(CfgFor(meaning, g), CfgFor(meaning, h), Renumber(retained), kept[i], i)
    ensures ProductionInRange(h.productions[i], h.nonterminals, |h.terminals|)
  {
    assert kept[i] in kept;
    var p := g.productions[kept[i]];
    ProductionKnown(g, kept[i]);
    RenumberExact(retained);
    assert RenamesProduction(Renumber(retained), Renumber(used), p, h.productions[i]);
    forall k | 0 <= k < |p.rhs|
      ensures SymbolMaps(CfgFor(meaning, g), CfgFor(meaning, h), Renumber(retained), p.rhs[k], h.productions[i].rhs[k])
      ensures SymbolInRange(h.productions[i].rhs[k], h.nonterminals, |h.terminals|)
    {
      assert p.rhs[k] in p.rhs;
      SymbolImage(meaning, g, retained, kept, used, h, p.rhs[k], h.productions[i].rhs[k]);
    }
  }

  lemma RewriteIsImage(meaning: Meaning, g: Grammar, retained: seq<bool>, kept: seq<nat>, used: seq<bool>, h: Grammar)
    requires InRange(g) && Rewrites(g, retained, kept, used, h) && KeepsDeriving(meaning, g, retained)
    ensures ImageOf(CfgFor(meaning, g), CfgFor(meaning, h), Renumber(retained)) && InRange(h)
  {
    hide ProductionMaps;
    RenumberExact(retained);
    forall i: nat | i < |h.productions|
      ensures HasOrigin(CfgFor(meaning, g), CfgFor(meaning, h), Renumber(retained), i)
      ensures ProductionInRange(h.productions[i], h.nonterminals, |h.terminals|)
    {
      ProductionImage(meaning, g, retained, kept, used, h, i);
    }
    forall p: nat | p < |g.productions| && Retains(Renumber(retained), g.productions[p].lhs)
      && DerivesSomething(CfgFor(meaning, g), g.productions[p].rhs)
      ensures HasImage(CfgFor(meaning, g), CfgFor(meaning, h), Renumber(retained), p)
    {
      assert Keeps(g, retained, p);
      var i :| 0 <= i < |kept| && kept[i] == p;
      ProductionImage(meaning, g, retained, kept, used, h, i);
    }
  }

  // ---------- Productive and reachable ----------

  lemma DerivingSymbols(meaning: Meaning, g: Grammar, alpha: seq<Symbol>, s: Symbol)
    requires DerivesSomething(CfgFor(meaning, g), alpha) && s in alpha && s.Nonterminal?
    ensures GeneratesSome(CfgFor(meaning, g), s.id)
  {
    var c := CfgFor(meaning, g);
    var w: Word :| Derives(c, alpha, w);
    var f: Forest :| ForestFor(c, f, alpha) && ForestYield(f) == w;
    var k :| 0 <= k < |alpha| && alpha[k] == s;
    var l, r := SplitForest(c, f, alpha, k);
    assert alpha[k..][0] == s;
    assert TreeFor(c, r.head, s);
    assert Generates(c, s.id, Yield(r.head));
  }

  // The nonterminals kept: productive and reached from the start.
  ghost predicate RetainsUseful(meaning: Meaning, g: Grammar, productive: seq<bool>, retained: seq<bool>) {
    && |productive| == |retained| == g.nonterminals
    && (forall a: nat :: a < g.nonterminals && GeneratesSome(CfgFor(meaning, g), a) ==> productive[a])
    && (forall a: nat :: a < g.nonterminals ==> (retained[a] <==> productive[a] && Reaches(g, g.start, a)))
  }

  lemma UsefulKeepsDeriving(meaning: Meaning, g: Grammar, productive: seq<bool>, retained: seq<bool>)
    requires InRange(g) && RetainsUseful(meaning, g, productive, retained)
    ensures KeepsDeriving(meaning, g, retained)
  {
    hide Reaches, GeneratesSome, DerivesSomething;
    forall p: nat | p < |g.productions| && g.productions[p].lhs < |retained| && retained[g.productions[p].lhs] &&
                    DerivesSomething(CfgFor(meaning, g), g.productions[p].rhs)
      ensures Keeps(g, retained, p)
    {
      ProductionKnown(g, p);
      forall s | s in g.productions[p].rhs && s.Nonterminal? ensures retained[s.id] {
        DerivingSymbols(meaning, g, g.productions[p].rhs, s);
        DependsStep(g, p, s.id);
      }
    }
  }

  lemma DependsStep(g: Grammar, p: nat, b: nat)
    requires p < |g.productions| && Nonterminal(b) in g.productions[p].rhs && Reaches(g, g.start, g.productions[p].lhs)
    ensures Reaches(g, g.start, b)
  {
    ReachesStep(g, g.productions[p].lhs, b);
    ReachesTransitive(g, g.start, g.productions[p].lhs, b);
  }

  lemma ImageProductive(meaning: Meaning, g: Grammar, retained: seq<bool>, h: Grammar, b: nat)
    requires ImageOf(CfgFor(meaning, g), CfgFor(meaning, h), Renumber(retained)) && b < Count(retained)
    requires forall a: nat :: a < |retained| && retained[a] ==> GeneratesSome(CfgFor(meaning, g), a)
    ensures GeneratesSome(CfgFor(meaning, h), b)
  {
    hide ImageOf, Renumber, Count;
    var a := RenumberOnto(retained, b);
    RenumberExact(retained);
    var w: Word :| Generates(CfgFor(meaning, g), a, w);
    ImagePreserves(CfgFor(meaning, g), CfgFor(meaning, h), Renumber(retained), a, w);
  }

  // Every terminal of the rewritten grammar was one before, and stands in some production.
  lemma TerminalStands(g: Grammar, retained: seq<bool>, kept: seq<nat>, used: seq<bool>, h: Grammar, t': nat)
    requires Rewrites(g, retained, kept, used, h) && t' < |h.terminals|
    ensures h.terminals[t'] in g.terminals && Stands(h, t')
  {
    var t := RenumberOnto(used, t');
    RenumberExact(used);
    var k :| 0 <= k < |kept| && kept[k] < |g.productions| && Terminal(t) in g.productions[kept[k]].rhs;
    var i :| 0 <= i < |g.productions[kept[k]].rhs| && g.productions[kept[k]].rhs[i] == Terminal(t);
    assert RenamesProduction(Renumber(retained), Renumber(used), g.productions[kept[k]], h.productions[k]);
    assert h.productions[k].rhs[i] == Terminal(t');
  }

  ghost predicate Stands(h: Grammar, t: nat) {
    exists p: nat :: p < |h.productions| && Terminal(t) in h.productions[p].rhs
  }

  datatype ReductionStats = ReductionStats(removedNonterminals: int, removedTerminals: int, removedProductions: int)

  // The reduced grammar keeps the language, and with it that of every nonterminal kept.
  ghost predicate Reduces(meaning: Meaning, g: Grammar, remap: Renumbering, h: Grammar) {
    && InRange(h) && ImageOf(CfgFor(meaning, g), CfgFor(meaning, h), remap)
    && (forall w: Word :: Accepts(CfgFor(meaning, h), w) <==> Accepts(CfgFor(meaning, g), w))
    && (forall a: nat, w: Word :: Retains(remap, a) ==>
          (Generates(CfgFor(meaning, g), a, w) <==> Generates(CfgFor(meaning, h), remap[a].value, w)))
    && (forall t: nat :: t < |h.terminals| ==> h.terminals[t] in g.terminals && Stands(h, t))
  }

  // With terminals that match something: everything kept derives something, and an empty language leaves nothing.
  ghost predicate ReducedFully(meaning: Meaning, g: Grammar, remap: Renumbering, h: Grammar) {
    if GeneratesSome(CfgFor(meaning, g), g.start) then
      (forall b: nat :: b < h.nonterminals ==> GeneratesSome(CfgFor(meaning, h), b)) &&
      (forall a: nat :: a < g.nonterminals ==>
          (Retains(remap, a) <==> GeneratesSome(CfgFor(meaning, g), a) && Reaches(g, g.start, a)))
    else h == Grammar(0, 1, [], [])
  }

  // A reduction of the grammar, and a full one when every terminal matches something.
  ghost predicate ReducedFrom(meaning: Meaning, g: Grammar, h: Grammar) {
    exists remap ::
      Reduces(meaning, g, remap, h) && (TerminalsMatch(meaning, g) ==> ReducedFully(meaning, g, remap, h))
  }

  lemma ReducedRight(meaning: Meaning, g: Grammar, productive: seq<bool>, retained: seq<bool>, kept: seq<nat>,
      used: seq<bool>, h: Grammar)
    requires InRange(g) && RetainsUseful(meaning, g, productive, retained) && Rewrites(g, retained, kept, used, h)
    ensures Reduces(meaning, g, Renumber(retained), h)
  {
    hide Rewrites, ImageOf, RetainsUseful, Stands;
    UsefulKeepsDeriving(meaning, g, productive, retained);
    RewriteIsImage(meaning, g, retained, kept, used, h);
    forall a: nat, w: Word | Retains(Renumber(retained), a)
      ensures Generates(CfgFor(meaning, g), a, w) <==> Generates(CfgFor(meaning, h), Renumber(retained)[a].value, w)
    {
      ImagePreserves(CfgFor(meaning, g), CfgFor(meaning, h), Renumber(retained), a, w);
    }
    forall t: nat | t < |h.terminals| ensures h.terminals[t] in g.terminals && Stands(h, t) {
      TerminalStands(g, retained, kept, used, h, t);
    }
    RewritesStart(g, retained, kept, used, h);
  }

  lemma RewritesStart(g: Grammar, retained: seq<bool>, kept: seq<nat>, used: seq<bool>, h: Grammar)
    requires Rewrites(g, retained, kept, used, h)
    ensures Retains(Renumber(retained), g.start) && h.start == Renumber(retained)[g.start].value
    ensures h.nonterminals == Count(retained)
  {
  }

  lemma FullyReduced(meaning: Meaning, g: Grammar, productive: seq<bool>, retained: seq<bool>, kept: seq<nat>,
      used: seq<bool>, h: Grammar)
    requires InRange(g) && RetainsUseful(meaning, g, productive, retained) && Rewrites(g, retained, kept, used, h)
    requires forall a: nat :: a < g.nonterminals && productive[a] ==> GeneratesSome(CfgFor(meaning, g), a)
    ensures ReducedFully(meaning, g, Renumber(retained), h)
  {
    hide GeneratesSome, Reaches, ImageOf;
    UsefulKeepsDeriving(meaning, g, productive, retained);
    RewriteIsImage(meaning, g, retained, kept, used, h);
    RenumberExact(retained);
    forall b: nat | b < h.nonterminals ensures GeneratesSome(CfgFor(meaning, h), b) {
      ImageProductive(meaning, g, retained, h, b);
    }
  }

  // The grammar left when the start derives nothing.
  lemma NothingLeft(meaning: Meaning, g: Grammar)
    requires !GeneratesSome(CfgFor(meaning, g), g.start)
    ensures Reduces(meaning, g, [], Grammar(0, 1, [], []))
    ensures ReducedFully(meaning, g, [], Grammar(0, 1, [], []))
  {
    var h := Grammar(0, 1, [], []);
    assert ImageOf(CfgFor(meaning, g), CfgFor(meaning, h), []);
    forall w: Word ensures !Accepts(CfgFor(meaning, h), w) && !Accepts(CfgFor(meaning, g), w) {
      assert forall t: Tree :: !TreeFor(CfgFor(meaning, h), t, Nonterminal(0));
    }
  }

  // ---------- The grammar rewritten in place ----------

  class LoweredGrammar {
    var start: nat
    var nonterminals: nat
    var terminals: seq<RegularTerminal>
    var productions: seq<Production>

    constructor (g: Grammar)
      ensures Value() == g
    {
      start, nonterminals, terminals, productions := g.start, g.nonterminals, g.terminals, g.productions;
    }

    function Value(): Grammar
      reads this
    {
      Grammar(start, nonterminals, terminals, productions)
    }

    method Assign(g: Grammar)
      modifies this
      ensures Value() == g
    {
      start, nonterminals, terminals, productions := g.start, g.nonterminals, g.terminals, g.productions;
    }

    // Reduction never fails, keeps the language, and leaves only nonterminals that derive something.
    method Reduce(ghost meaning: Meaning) returns (stats: ReductionStats, ghost remap: Renumbering)
      requires InRange(Value())
      modifies this
      ensures Reduces(meaning, old(Value()), remap, Value())
      ensures TerminalsMatch(meaning, old(Value())) ==> ReducedFully(meaning, old(Value()), remap, Value())
      ensures stats ==
              ReductionStats(old(nonterminals) - nonterminals, |old(terminals)| - |terminals|,
              |old(productions)| - |productions|)
    {
      hide Reduces, ReducedFully, GeneratesSome, Reaches, TerminalsMatch, Rewrites;
      var g := Value();
      var productive := ProductiveNonterminals(meaning, g);
      if !productive[g.start] {
        NothingLeft(meaning, g);
        remap := [];
        Assign(Grammar(0, 1, [], []));
        return ReductionStats(g.nonterminals - 1, |g.terminals|, |g.productions|), remap;
      }
      var reachable := ReachableNonterminals(g);
      var retained := seq(g.nonterminals, a requires 0 <= a < g.nonterminals => productive[a] && reachable[a]);
      ReachesItself(g, g.start);
      var rewritten, kept, used := RewriteGrammar(g, retained);
      remap := Renumber(retained);
      ReducedRight(meaning, g, productive, retained, kept, used, rewritten.value);
      if TerminalsMatch(meaning, g) {
        FullyReduced(meaning, g, productive, retained, kept, used, rewritten.value);
      }
      Assign(rewritten.value);
      stats := ReductionStats(g.nonterminals - nonterminals, |g.terminals| - |terminals|,
        |g.productions| - |productions|);
    }
  }
}
