/**
 The rules of one nonterminal of a grammar under construction, and the builder that adds them.
 */
module LoweredRules {
  import opened Grammars
  import opened CompileErrors
  import opened SchemaGrammars
  import opened JsonSchemas

  // The right-hand sides of `a`, in order.
  function RulesOf(productions: seq<Production>, a: nat): seq<seq<Symbol>> {
    if productions == [] then []
    else
      var last := productions[|productions| - 1];
      RulesOf(productions[..|productions| - 1], a) + if last.lhs == a then [last.rhs] else []
  }

  lemma RulesMore(productions: seq<Production>, p: Production, a: nat)
    ensures RulesOf(productions + [p], a) == RulesOf(productions, a) + if p.lhs == a then [p.rhs] else []
  {
    assert (productions + [p])[..|productions|] == productions;
  }

  lemma {:induction false} RulesExact(productions: seq<Production>, a: nat, rhs: seq<Symbol>)
    ensures rhs in RulesOf(productions, a) <==> Production(a, rhs) in productions
    decreases |productions|
  {
    if productions != [] {
      var front, last := productions[..|productions| - 1], productions[|productions| - 1];
      RulesExact(front, a, rhs);
      assert productions == front + [last];
    }
  }

  lemma {:induction false} NoRules(productions: seq<Production>, a: nat)
    requires forall p <- productions :: p.lhs != a
    ensures RulesOf(productions, a) == []
    decreases |productions|
  {
    if productions != [] {
      var front := productions[..|productions| - 1];
      assert forall p <- front :: p in productions;
      NoRules(front, a);
    }
  }

  // The root of a tree is one of the rules.
  lemma TreeByRule(c: Cfg, t: Tree, a: nat) returns (rule: seq<Symbol>)
    requires TreeFor(c, t, Nonterminal(a))
    ensures t.Node? && rule in RulesOf(c.productions, a) && ForestFor(c, t.kids, rule)
  {
    var p := c.productions[t.production];
    rule := p.rhs;
    assert p == Production(a, rule) && p in c.productions;
    RulesExact(c.productions, a, rule);
  }

  lemma RuleGenerates(c: Cfg, a: nat, rule: seq<Symbol>, w: Word)
    requires rule in RulesOf(c.productions, a) && Derives(c, rule, w)
    ensures Generates(c, a, w)
  {
    RulesExact(c.productions, a, rule);
    var p: nat :| p < |c.productions| && c.productions[p] == Production(a, rule);
    DerivesProduction(c, p, w);
  }

  // ---------- The builder ----------

  datatype Built = Built(nonterminals: nat, terminals: seq<RegularTerminal>, productions: seq<Production>)

  ghost predicate BuiltInRange(b: Built) {
    forall p <- b.productions :: ProductionInRange(p, b.nonterminals, |b.terminals|)
  }

  // What is there stays, and only `lhs` and new nonterminals get rules.
  ghost predicate Grown(before: Built, after: Built, lhs: nat) {
    && before.nonterminals <= after.nonterminals && before.terminals <= after.terminals
    && forall a: nat :: a < before.nonterminals && a != lhs ==>
         RulesOf(after.productions, a) == RulesOf(before.productions, a)
  }

  // Only the rules of `a` change, and no nonterminal is new.
  ghost predicate Touches(before: Built, after: Built, a: nat) {
    && before.nonterminals == after.nonterminals && before.terminals <= after.terminals
    && forall x: nat :: x != a ==> RulesOf(after.productions, x) == RulesOf(before.productions, x)
  }

  lemma ProductionTouches(before: Built, p: Production)
    ensures Touches(before, before.(productions := before.productions + [p]), p.lhs)
    ensures RulesOf(before.productions + [p], p.lhs) == RulesOf(before.productions, p.lhs) + [p.rhs]
  {
    forall x: nat
      ensures RulesOf(before.productions + [p], x) ==
              RulesOf(before.productions, x) + if p.lhs == x then [p.rhs] else []
    {
      RulesMore(before.productions, p, x);
    }
  }

  lemma TouchesGrown(before: Built, now: Built, after: Built, lhs: nat, a: nat)
    requires Grown(before, now, lhs) && Touches(now, after, a) && (a == lhs || a >= before.nonterminals)
    ensures Grown(before, after, lhs)
  {
  }

  lemma GrownSame(b: Built, lhs: nat)
    ensures Grown(b, b, lhs)
  {
  }

  lemma NoRulesYet(b: Built, a: nat)
    requires BuiltInRange(b) && a >= b.nonterminals
    ensures RulesOf(b.productions, a) == []
  {
    NoRules(b.productions, a);
  }

  predicate IsLiteral(terminals: seq<RegularTerminal>, s: Symbol, bytes: Word) {
    s.Terminal? && s.id < |terminals| && terminals[s.id] == LiteralTerminal(bytes)
  }

  predicate IsPattern(terminals: seq<RegularTerminal>, s: Symbol, forward: string) {
    s.Terminal? && s.id < |terminals| && terminals[s.id].PatternTerminal? && terminals[s.id].forward == forward
  }

  // A literal with some bytes, or the pattern of a scalar type.
  ghost predicate Plain(t: RegularTerminal) {
    match t
    case LiteralTerminal(bytes) => bytes != []
    case PatternTerminal(forward, _) => exists kind :: forward == PatternText(kind)
  }

  // A production is refused exactly when there is one too many, or its symbols are, and the error says how many.
  predicate ProductionAnswer(limits: GrammarLimits, before: Built, rhs: seq<Symbol>, r: Result<nat>) {
    var count, symbols := |before.productions| + 1, RhsTotal(before.productions) + |rhs|;
    if count > limits.maxProductions then r == Err(ResourceLimitExceeded(Lowering, count, limits.maxProductions))
    else if symbols > limits.maxRhsSymbols then
      r == Err(ResourceLimitExceeded(Lowering, symbols, limits.maxRhsSymbols))
    else r.Ok?
  }

  // A nonterminal or a terminal is refused exactly when there is one symbol too many.
  predicate SymbolAnswer(limits: GrammarLimits, before: Built, r: Result<nat>) {
    var count := before.nonterminals + |before.terminals| + 1;
    if count > limits.maxSymbols then r == Err(ResourceLimitExceeded(Lowering, count, limits.maxSymbols)) else r.Ok?
  }

  // How much is built: nonterminals, terminals, productions and their symbols.
  function Weight(b: Built): nat {
    b.nonterminals + |b.terminals| + |b.productions| + RhsTotal(b.productions)
  }

  // At most `cost` is added, and a limit in the way is one that less than that goes over.
  ghost predicate Costs<T>(limits: GrammarLimits, before: Built, after: Built, r: Result<T>, cost: nat) {
    match r
    case Ok(_) => Weight(after) <= Weight(before) + cost
    case Err(e) => e.ResourceLimitExceeded? ==> GrammarOver(limits, e) && e.observed <= Weight(before) + cost
  }

  // The sizes are within the limits.
  predicate BuiltWithin(b: Built, limits: GrammarLimits) {
    && b.nonterminals + |b.terminals| <= limits.maxSymbols && |b.productions| <= limits.maxProductions
    && RhsTotal(b.productions) <= limits.maxRhsSymbols
  }

  class GrammarBuilder {
    const limits: GrammarLimits
    var nonterminals: nat
    var terminals: seq<RegularTerminal>
    var productions: seq<Production>
    var rhsSymbols: nat
    var literalCache: map<(Word, nat), nat>

    function Value(): Built
      reads this
    {
      Built(nonterminals, terminals, productions)
    }

    ghost predicate Valid()
      reads this
    {
      && BuiltInRange(Value()) && (forall t <- terminals :: Plain(t))
      && rhsSymbols == RhsTotal(productions) && BuiltWithin(Value(), limits)
      && (forall key <- literalCache ::
            literalCache[key] < |terminals| && terminals[literalCache[key]] == LiteralTerminal(key.0))
    }

    constructor (limits: GrammarLimits)
      ensures Valid() && this.limits == limits && Value() == Built(0, [], [])
    {
      this.limits := limits;
      nonterminals, terminals, productions, rhsSymbols, literalCache := 0, [], [], 0, map[];
    }

    method AddNonterminal() returns (r: Result<nat>)
      requires Valid()
      modifies this
      ensures Valid() && (r.Err? ==> r.error.ResourceLimitExceeded? && Value() == old(Value()))
      ensures SymbolAnswer(limits, old(Value()), r) && Costs(limits, old(Value()), Value(), r, 1)
      ensures r.Ok? ==> r.value == old(nonterminals) && Value() == old(Value()).(nonterminals := old(nonterminals) + 1)
    {
      if nonterminals + |terminals| + 1 > limits.maxSymbols {
        return Err(ResourceLimitExceeded(Lowering, nonterminals + |terminals| + 1, limits.maxSymbols));
      }
      nonterminals := nonterminals + 1;
      RangeGrows(old(Value()), Value());
      return Ok(nonterminals - 1);
    }

    method AddTerminal(t: RegularTerminal) returns (r: Result<nat>)
      requires Valid() && Plain(t)
      modifies this
      ensures Valid() && literalCache == old(literalCache)
      ensures r.Err? ==> r.error.ResourceLimitExceeded? && Value() == old(Value())
      ensures SymbolAnswer(limits, old(Value()), r) && Costs(limits, old(Value()), Value(), r, 1)
      ensures r.Ok? ==> r.value == |old(terminals)| && Value() == old(Value()).(terminals := old(terminals) + [t])
    {
      if nonterminals + |terminals| + 1 > limits.maxSymbols {
        return Err(ResourceLimitExceeded(Lowering, nonterminals + |terminals| + 1, limits.maxSymbols));
      }
      terminals := terminals + [t];
      RangeGrows(old(Value()), Value());
      return Ok(|terminals| - 1);
    }

    // A literal is entered once for each place in the schema.
    method AddLiteral(bytes: Word, place: nat) returns (r: Result<Symbol>)
      requires Valid() && bytes != []
      modifies this
      ensures Valid() && (r.Err? ==> r.error.ResourceLimitExceeded?) && Costs(limits, old(Value()), Value(), r, 1)
      ensures Value() == old(Value())
              || Value() == old(Value()).(terminals := old(terminals) + [LiteralTerminal(bytes)])
      ensures r.Ok? ==> IsLiteral(terminals, r.value, bytes)
    {
      var key := (bytes, place);
      if key in literalCache {
        return Ok(Terminal(literalCache[key]));
      }
      var id := AddTerminal(LiteralTerminal(bytes));
      if id.Err? {
        return Err(id.error);
      }
      literalCache := literalCache[key := id.value];
      return Ok(Terminal(id.value));
    }

    // The pattern of a scalar schema; `null` names itself as its own reverse.
    method AddPattern(kind: NormalizedSchema) returns (r: Result<Symbol>)
      requires Valid()
      modifies this
      ensures Valid() && (r.Err? ==> r.error.ResourceLimitExceeded?) && Costs(limits, old(Value()), Value(), r, 1)
      ensures Value() == old(Value()) || exists t :: Value() == old(Value()).(terminals := old(terminals) + [t])
      ensures r.Ok? ==> IsPattern(terminals, r.value, PatternText(kind))
    {
      hide PatternText;
      var forward := PatternText(kind);
      var id := AddTerminal(PatternTerminal(forward, if kind.NullValue? then Some(forward) else None));
      if id.Err? {
        return Err(id.error);
      }
      return Ok(Terminal(id.value));
    }

    method AddProduction(lhs: nat, rhs: seq<Symbol>) returns (r: Result<nat>)
      requires Valid() && ProductionInRange(Production(lhs, rhs), nonterminals, |terminals|)
      modifies this
      ensures Valid() && (r.Err? ==> r.error.ResourceLimitExceeded? && Value() == old(Value()))
      ensures ProductionAnswer(limits, old(Value()), rhs, r) && Costs(limits, old(Value()), Value(), r, 1 + |rhs|)
      ensures r.Ok? ==> Value() == old(Value()).(productions := old(productions) + [Production(lhs, rhs)])
      ensures r.Ok? ==>
              Touches(old(Value()), Value(), lhs) && RulesOf(productions, lhs) == RulesOf(old(productions), lhs) + [rhs]
    {
      if |productions| + 1 > limits.maxProductions {
        return Err(ResourceLimitExceeded(Lowering, |productions| + 1, limits.maxProductions));
      }
      if rhsSymbols + |rhs| > limits.maxRhsSymbols {
        return Err(ResourceLimitExceeded(Lowering, rhsSymbols + |rhs|, limits.maxRhsSymbols));
      }
      rhsSymbols := rhsSymbols + |rhs|;
      RhsTotalMore(productions, Production(lhs, rhs));
      ProductionTouches(Value(), Production(lhs, rhs));
      productions := productions + [Production(lhs, rhs)];
      return Ok(|productions| - 1);
    }
  }

  lemma RangeGrows(before: Built, after: Built)
    requires BuiltInRange(before) && before.nonterminals <= after.nonterminals && before.terminals <= after.terminals
    requires after.productions == before.productions
    ensures BuiltInRange(after)
  {
  }
}
