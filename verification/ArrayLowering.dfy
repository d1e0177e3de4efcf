/**
 Lowering an array schema: one nonterminal for each position up to the last that can differ, the last one looping
 when the length is open.  The nonterminals derive exactly the comma-joined lists the keywords admit.
 */
module ArrayLowering {
  import opened Grammars
  import opened CompileErrors
  import opened RegularExpressions
  import opened SchemaGrammars
  import opened JsonSchemas
  import opened LoweredRules

  predicate IsNever(kinds: seq<NormalizedSchema>, id: nat) {
    id < |kinds| && kinds[id].Never?
  }

  function Min(a: nat, b: nat): nat {
    if a < b then a else b
  }

  function Max(a: nat, b: nat): nat {
    if a < b then b else a
  }

  // The bound on the length: past the prefix, `items` that admit nothing end the list.
  function EffectiveMax(kinds: seq<NormalizedSchema>, shape: ArrayConstraints): Option<nat> {
    if shape.items.Some? && IsNever(kinds, shape.items.value) then
      Some(Min(if shape.maxItems.Some? then shape.maxItems.value else |shape.prefixItems|, |shape.prefixItems|))
    else shape.maxItems
  }

  predicate Unsatisfiable(kinds: seq<NormalizedSchema>, shape: ArrayConstraints) {
    var effective := EffectiveMax(kinds, shape);
    effective.Some? && effective.value < shape.minItems
  }

  // The list can be longer than the prefix although nothing constrains what follows.
  predicate OpenEnded(kinds: seq<NormalizedSchema>, shape: ArrayConstraints) {
    var effective := EffectiveMax(kinds, shape);
    && shape.items.None? && (effective.None? || effective.value > |shape.prefixItems|)
    && !(effective.Some? && effective.value < shape.minItems)
  }

  // The last position.
  function Last(kinds: seq<NormalizedSchema>, shape: ArrayConstraints): nat {
    var effective := EffectiveMax(kinds, shape);
    if effective.Some? then effective.value else Max(Max(|shape.prefixItems|, shape.minItems), 1)
  }

  // The schema of the item read at a position, if one can be read there.
  function ItemAt(kinds: seq<NormalizedSchema>, shape: ArrayConstraints, i: nat): Option<nat> {
    var effective := EffectiveMax(kinds, shape);
    if effective.Some? && i >= effective.value then None
    else
      var item := if i < |shape.prefixItems| then Some(shape.prefixItems[i]) else shape.items;
      if item.None? || IsNever(kinds, item.value) then None else item
  }

  function StateAt(last: nat, i: nat): nat {
    Min(i, last)
  }

  // ---------- The rules ----------

  // Reading one item: a comma first, unless at the front.
  ghost predicate StepRule(b: Built, i: nat, item: nat, next: nat, rule: seq<Symbol>) {
    if i == 0 then rule == [Nonterminal(item), Nonterminal(next)]
    else
      && |rule| == 3 && IsLiteral(b.terminals, rule[0], COMMA)
      && rule[1] == Nonterminal(item) && rule[2] == Nonterminal(next)
  }

  ghost predicate PositionRules(b: Built, kinds: seq<NormalizedSchema>, shape: ArrayConstraints, states: seq<nat>,
      i: nat)
    requires i < |states|
  {
    var rules := RulesOf(b.productions, states[i]);
    var ends: seq<seq<Symbol>> := if i >= shape.minItems then [[]] else [];
    var item := ItemAt(kinds, shape, i);
    if item.None? then rules == ends
    else
      |rules| == |ends| + 1 && rules[..|ends|] == ends &&
      StepRule(b, i, item.value, states[StateAt(|states| - 1, i + 1)], rules[|ends|])
  }

  ghost predicate PositionsFor(b: Built, kinds: seq<NormalizedSchema>, shape: ArrayConstraints, states: seq<nat>) {
    |states| == Last(kinds, shape) + 1 && forall i: nat :: i < |states| ==> PositionRules(b, kinds, shape, states, i)
  }

  // The bracketed list.
  ghost predicate BracketRule(b: Built, lhs: nat, open: Word, inner: nat, close: Word) {
    var rules := RulesOf(b.productions, lhs);
    |rules| == 1 && |rules[0]| == 3 && IsLiteral(b.terminals, rules[0][0], open) && rules[0][1] == Nonterminal(inner)
    && IsLiteral(b.terminals, rules[0][2], close)
  }

  ghost predicate StatesFor(b: Built, kinds: seq<NormalizedSchema>, lhs: nat, shape: ArrayConstraints, states: seq<nat>)
  {
    && PositionsFor(b, kinds, shape, states) && BracketRule(b, lhs, OPEN_ARRAY, states[0], CLOSE_ARRAY)
    && forall s <- states :: |kinds| <= s < b.nonterminals
  }

  ghost predicate ArrayLowered(b: Built, kinds: seq<NormalizedSchema>, lhs: nat, shape: ArrayConstraints) {
    if Unsatisfiable(kinds, shape) then RulesOf(b.productions, lhs) == []
    else !OpenEnded(kinds, shape) && exists states :: StatesFor(b, kinds, lhs, shape, states)
  }

  // ---------- What the positions derive ----------

  // A run from position state `i`: the parts read, each a string of its item, ending where the list may end.
  ghost predicate RunFits(strings: Strings, kinds: seq<NormalizedSchema>, shape: ArrayConstraints, i: nat,
      parts: seq<Word>)
    decreases |parts|
  {
    if parts == [] then i >= shape.minItems
    else
      var item := ItemAt(kinds, shape, i);
      item.Some? && parts[0] in strings(item.value)
        && RunFits(strings, kinds, shape, StateAt(Last(kinds, shape), i + 1), parts[1..])
  }

  // What a run from position `i` reads.
  function RunText(i: nat, parts: seq<Word>): Word {
    if i == 0 then Join(parts) else JoinTail(parts)
  }

  lemma RunTextStep(i: nat, next: nat, parts: seq<Word>)
    requires parts != [] && next > 0
    ensures RunText(i, parts) == (if i == 0 then [] else COMMA) + parts[0] + RunText(next, parts[1..])
  {
  }

  // The words of the trees below a bound: the induction is over them.
  ghost function Below(c: Cfg, bound: Forest): Strings {
    (k: nat) => iset w: Word | YieldedBelow(c, bound, k, w)
  }

  ghost predicate YieldedBelow(c: Cfg, bound: Forest, k: nat, w: Word) {
    exists t: Tree :: t < bound && TreeFor(c, t, Nonterminal(k)) && Yield(t) == w
  }

  // A rule of a position ends the list or reads an item.
  lemma PositionRuleIs(b: Built, kinds: seq<NormalizedSchema>, shape: ArrayConstraints, states: seq<nat>, i: nat,
      rule: seq<Symbol>)
    requires PositionsFor(b, kinds, shape, states) && i < |states| && rule in RulesOf(b.productions, states[i])
    ensures StateAt(|states| - 1, i + 1) < |states|
    ensures || (rule == [] && i >= shape.minItems)
            || (ItemAt(kinds, shape, i).Some? && StateAt(|states| - 1, i + 1) > 0 &&
                StepRule(b, i, ItemAt(kinds, shape, i).value, states[StateAt(|states| - 1, i + 1)], rule))
  {
    assert PositionRules(b, kinds, shape, states, i);
  }

  lemma BelowHas(c: Cfg, bound: Forest, k: nat, t: Tree)
    requires TreeFor(c, t, Nonterminal(k)) && t < bound
    ensures Yield(t) in Below(c, bound)(k)
  {
    assert YieldedBelow(c, bound, k, Yield(t));
  }

  lemma EmptyRule(c: Cfg, t: Tree, rule: seq<Symbol>)
    requires t.Node? && rule == [] && ForestFor(c, t.kids, rule)
    ensures Yield(t) == []
  {
    assert t.kids == Nil;
  }

  lemma PositionForward(c: Cfg, b: Built, kinds: seq<NormalizedSchema>, shape: ArrayConstraints, states: seq<nat>,
      i: nat, t: Tree, bound: Forest)
    returns (parts: seq<Word>)
    requires PositionsFor(b, kinds, shape, states) && Represents(c, b) && i < |states|
    requires TreeFor(c, t, Nonterminal(states[i])) && t < bound
    ensures RunFits(Below(c, bound), kinds, shape, i, parts) && Yield(t) == RunText(i, parts)
    decreases t
  {
    hide StepRule, Represents, TreeFor, ForestFor, Below, RulesOf, RunText, ItemAt, Yield;
    RepresentsRules(c, b);
    var rule := TreeByRule(c, t, states[i]);
    PositionRuleIs(b, kinds, shape, states, i, rule);
    if rule == [] && i >= shape.minItems {
      parts := [];
      EmptyRule(c, t, rule);
      NothingRead(i);
    } else {
      var item := ItemAt(kinds, shape, i).value;
      var next := StateAt(|states| - 1, i + 1);
      var first, rest := StepParts(c, b, i, item, states[next], rule, t.kids);
      var tail := PositionForward(c, b, kinds, shape, states, next, rest, bound);
      parts := [Yield(first)] + tail;
      assert parts[1..] == tail;
      BelowHas(c, bound, item, first);
      NodeYield(t);
      RunTextStep(i, next, parts);
    }
  }

  lemma RepresentsRules(c: Cfg, b: Built)
    requires Represents(c, b)
    ensures c.productions == b.productions
  {
  }

  lemma NothingRead(i: nat)
    ensures RunText(i, []) == []
  {
  }

  lemma NodeYield(t: Tree)
    requires t.Node?
    ensures Yield(t) == ForestYield(t.kids)
  {
  }

  // The grammar has the rules and the literals of what was built.
  ghost predicate Represents(c: Cfg, b: Built) {
    && c.productions == b.productions && |c.languages| == |b.terminals|
    && forall i: nat :: i < |b.terminals| && b.terminals[i].LiteralTerminal? ==>
         c.languages[i] == iset{b.terminals[i].bytes}
  }

  // The trees under a step rule.
  lemma StepParts(c: Cfg, b: Built, i: nat, item: nat, next: nat, rule: seq<Symbol>, kids: Forest)
      returns (first: Tree, rest: Tree)
    requires Represents(c, b) && StepRule(b, i, item, next, rule) && ForestFor(c, kids, rule)
    ensures TreeFor(c, first, Nonterminal(item)) && TreeFor(c, rest, Nonterminal(next)) && first < kids && rest < kids
    ensures ForestYield(kids) == (if i == 0 then [] else COMMA) + Yield(first) + Yield(rest)
  {
    if i == 0 {
      first, rest := TwoTrees(c, kids, rule);
    } else {
      assert rule[1..] == [Nonterminal(item), Nonterminal(next)];
      LiteralLeaf(c, b, kids.head, rule[0], COMMA);
      first, rest := TwoTrees(c, kids.tail, rule[1..]);
    }
  }

  lemma TwoTrees(c: Cfg, f: Forest, alpha: seq<Symbol>) returns (first: Tree, second: Tree)
    requires |alpha| == 2 && ForestFor(c, f, alpha)
    ensures TreeFor(c, first, alpha[0]) && TreeFor(c, second, alpha[1]) && first < f && second < f
    ensures ForestYield(f) == Yield(first) + Yield(second)
  {
    first := f.head;
    assert alpha[1..] == [alpha[1]];
    SingleForest(c, f.tail, alpha[1]);
    second := f.tail.head;
  }

  lemma LiteralLeaf(c: Cfg, b: Built, t: Tree, s: Symbol, bytes: Word)
    requires Represents(c, b) && IsLiteral(b.terminals, s, bytes) && TreeFor(c, t, s)
    ensures Yield(t) == bytes
  {
  }

  lemma LiteralDerives(c: Cfg, b: Built, s: Symbol, bytes: Word)
    requires Represents(c, b) && IsLiteral(b.terminals, s, bytes)
    ensures Derives(c, [s], bytes)
  {
    DerivesTerminal(c, s.id, bytes);
  }

  // ---------- And back ----------

  ghost function Generated(c: Cfg): Strings {
    (k: nat) => iset w: Word | Generates(c, k, w)
  }

  lemma {:induction false} PositionBack(c: Cfg, b: Built, kinds: seq<NormalizedSchema>, shape: ArrayConstraints,
      states: seq<nat>, i: nat, parts: seq<Word>)
    requires PositionsFor(b, kinds, shape, states) && Represents(c, b) && i < |states|
    requires RunFits(Generated(c), kinds, shape, i, parts)
    ensures Generates(c, states[i], RunText(i, parts))
    decreases |parts|
  {
    assert PositionRules(b, kinds, shape, states, i);
    var rules := RulesOf(b.productions, states[i]);
    if parts == [] {
      assert rules[0] == [];
      DerivesEmpty(c);
      RuleGenerates(c, states[i], [], []);
    } else {
      var item := ItemAt(kinds, shape, i).value;
      var next := StateAt(|states| - 1, i + 1);
      PositionBack(c, b, kinds, shape, states, next, parts[1..]);
      RunTextStep(i, next, parts);
      var rule := rules[|rules| - 1];
      StepDerives(c, b, i, item, states[next], rule, parts[0], RunText(next, parts[1..]));
      RuleGenerates(c, states[i], rule, RunText(i, parts));
    }
  }

  lemma StepDerives(c: Cfg, b: Built, i: nat, item: nat, next: nat, rule: seq<Symbol>, u: Word, v: Word)
    requires Represents(c, b) && StepRule(b, i, item, next, rule) && Generates(c, item, u) && Generates(c, next, v)
    ensures Derives(c, rule, (if i == 0 then [] else COMMA) + u + v)
  {
    DerivesNonterminal(c, item, u);
    DerivesNonterminal(c, next, v);
    DerivesConcat(c, [Nonterminal(item)], u, [Nonterminal(next)], v);
    assert [Nonterminal(item)] + [Nonterminal(next)] == [Nonterminal(item), Nonterminal(next)];
    if i == 0 {
      assert [] + u + v == u + v;
    } else {
      LiteralDerives(c, b, rule[0], COMMA);
      DerivesConcat(c, [rule[0]], COMMA, [Nonterminal(item), Nonterminal(next)], u + v);
      assert rule == [rule[0]] + [Nonterminal(item), Nonterminal(next)];
      assert COMMA + (u + v) == COMMA + u + v;
    }
  }

  // ---------- Runs and the keywords ----------

  // The bounds and the item of a position, as the keywords state them.
  ghost predicate Continues(strings: Strings, kinds: seq<NormalizedSchema>, shape: ArrayConstraints, k: nat,
      parts: seq<Word>)
  {
    && shape.minItems <= k + |parts|
    && (EffectiveMax(kinds, shape).Some? ==> k + |parts| <= EffectiveMax(kinds, shape).value)
    && (forall j: nat {:trigger parts[j]} :: j < |parts| ==> ItemFits(strings, kinds, shape, k + j, parts[j]))
  }

  ghost predicate ItemFits(strings: Strings, kinds: seq<NormalizedSchema>, shape: ArrayConstraints, i: nat, part: Word)
  {
    ItemAt(kinds, shape, i).Some? && part in strings(ItemAt(kinds, shape, i).value)
  }

  // Where the states saturate, the position no longer matters.
  lemma SaturatedItem(kinds: seq<NormalizedSchema>, shape: ArrayConstraints, k: nat)
    requires EffectiveMax(kinds, shape).Some? ==> k <= Last(kinds, shape)
    ensures ItemAt(kinds, shape, StateAt(Last(kinds, shape), k)) == ItemAt(kinds, shape, k)
    ensures StateAt(Last(kinds, shape), k) >= shape.minItems <==> k >= shape.minItems
    ensures StateAt(Last(kinds, shape), StateAt(Last(kinds, shape), k) + 1) == StateAt(Last(kinds, shape), k + 1)
  {
  }

  lemma {:induction false} RunIff(strings: Strings, kinds: seq<NormalizedSchema>, shape: ArrayConstraints, k: nat,
      parts: seq<Word>)
    requires EffectiveMax(kinds, shape).Some? ==> k <= Last(kinds, shape)
    ensures RunFits(strings, kinds, shape, StateAt(Last(kinds, shape), k), parts) <==>
            Continues(strings, kinds, shape, k, parts)
    decreases |parts|
  {
    SaturatedItem(kinds, shape, k);
    if parts != [] {
      if ItemAt(kinds, shape, k).Some? {
        RunIff(strings, kinds, shape, k + 1, parts[1..]);
        ContinuesStep(strings, kinds, shape, k, parts);
      } else {
        assert !ItemFits(strings, kinds, shape, k + 0, parts[0]);
      }
    }
  }

  lemma ContinuesStep(strings: Strings, kinds: seq<NormalizedSchema>, shape: ArrayConstraints, k: nat, parts: seq<Word>)
    requires parts != []
    ensures Continues(strings, kinds, shape, k, parts) <==>
              ItemFits(strings, kinds, shape, k, parts[0]) && Continues(strings, kinds, shape, k + 1, parts[1..])
  {
    if Continues(strings, kinds, shape, k, parts) {
      assert ItemFits(strings, kinds, shape, k + 0, parts[0]);
      forall j: nat | j < |parts[1..]| ensures ItemFits(strings, kinds, shape, k + 1 + j, parts[1..][j]) {
        assert ItemFits(strings, kinds, shape, k + (j + 1), parts[j + 1]);
      }
    }
    if ItemFits(strings, kinds, shape, k, parts[0]) && Continues(strings, kinds, shape, k + 1, parts[1..]) {
      forall j: nat | j < |parts| ensures ItemFits(strings, kinds, shape, k + j, parts[j]) {
        if j > 0 {
          assert ItemFits(strings, kinds, shape, k + 1 + (j - 1), parts[1..][j - 1]);
        }
      }
    }
  }

  // Schemas that are `Never` admit nothing.
  ghost predicate NeverEmpty(strings: Strings, kinds: seq<NormalizedSchema>) {
    forall k: nat, w: Word :: IsNever(kinds, k) ==> w !in strings(k)
  }

  // A run of the whole list is a list the keywords admit.
  lemma ContinuesFits(strings: Strings, kinds: seq<NormalizedSchema>, shape: ArrayConstraints, parts: seq<Word>)
    requires Continues(strings, kinds, shape, 0, parts)
    ensures LengthFits(shape, |parts|) && PartsFit(strings, shape, 0, parts)
  {
    forall j: nat | j < |parts| ensures PartFits(strings, shape, 0 + j, parts[j]) {
      assert ItemFits(strings, kinds, shape, 0 + j, parts[j]);
    }
  }

  lemma PastPrefix(strings: Strings, shape: ArrayConstraints, parts: seq<Word>)
    requires PartsFit(strings, shape, 0, parts)
    ensures |parts| > |shape.prefixItems| && shape.items.Some? ==>
            parts[|shape.prefixItems|] in strings(shape.items.value)
  {
    if |parts| > |shape.prefixItems| {
      assert PartFits(strings, shape, 0 + |shape.prefixItems|, parts[|shape.prefixItems|]);
    }
  }

  lemma FitsContinues(strings: Strings, kinds: seq<NormalizedSchema>, shape: ArrayConstraints, parts: seq<Word>)
    requires LengthFits(shape, |parts|) && PartsFit(strings, shape, 0, parts)
    requires NeverEmpty(strings, kinds) && !OpenEnded(kinds, shape)
    ensures Continues(strings, kinds, shape, 0, parts)
  {
    PastPrefix(strings, shape, parts);
    forall j: nat | j < |parts| ensures ItemFits(strings, kinds, shape, 0 + j, parts[j]) {
      assert PartFits(strings, shape, 0 + j, parts[j]);
    }
  }

  // ---------- The bracketed list ----------

  lemma BracketTree(c: Cfg, b: Built, lhs: nat, open: Word, inner: nat, close: Word, t: Tree) returns (u: Tree)
    requires Represents(c, b) && BracketRule(b, lhs, open, inner, close) && TreeFor(c, t, Nonterminal(lhs))
    ensures t.Node? && TreeFor(c, u, Nonterminal(inner)) && u < t.kids && Yield(t) == open + Yield(u) + close
  {
    var rule := TreeByRule(c, t, lhs);
    var rest := t.kids.tail;
    assert rule[1..] == [rule[1], rule[2]];
    LiteralLeaf(c, b, t.kids.head, rule[0], open);
    var last: Tree;
    u, last := TwoTrees(c, rest, rule[1..]);
    LiteralLeaf(c, b, last, rule[2], close);
  }

  lemma BracketWord(c: Cfg, b: Built, lhs: nat, open: Word, inner: nat, close: Word, w: Word)
    requires Represents(c, b) && BracketRule(b, lhs, open, inner, close) && Generates(c, inner, w)
    ensures Generates(c, lhs, open + w + close)
  {
    var rule := RulesOf(b.productions, lhs)[0];
    LiteralDerives(c, b, rule[0], open);
    LiteralDerives(c, b, rule[2], close);
    DerivesNonterminal(c, inner, w);
    DerivesConcat(c, [rule[0]], open, [rule[1]], w);
    DerivesConcat(c, [rule[0]] + [rule[1]], open + w, [rule[2]], close);
    assert [rule[0]] + [rule[1]] + [rule[2]] == rule;
    RuleGenerates(c, lhs, rule, open + w + close);
  }

  // A tree of the array's nonterminal is a list the keywords admit, of smaller trees.
  lemma ArrayTree(c: Cfg, b: Built, kinds: seq<NormalizedSchema>, lhs: nat, shape: ArrayConstraints, t: Tree)
      returns (parts: seq<Word>)
    requires Represents(c, b) && ArrayLowered(b, kinds, lhs, shape) && TreeFor(c, t, Nonterminal(lhs))
    ensures t.Node? && ArrayOf(Below(c, t.kids), shape, parts, Yield(t))
  {
    hide Below, PositionRules;
    var rule := TreeByRule(c, t, lhs);
    var states :| StatesFor(b, kinds, lhs, shape, states);
    var u := BracketTree(c, b, lhs, OPEN_ARRAY, states[0], CLOSE_ARRAY, t);
    parts := PositionForward(c, b, kinds, shape, states, 0, u, t.kids);
    RunIff(Below(c, t.kids), kinds, shape, 0, parts);
    ContinuesFits(Below(c, t.kids), kinds, shape, parts);
  }

  // A list the keywords admit is derived.
  lemma ArrayWord(c: Cfg, b: Built, kinds: seq<NormalizedSchema>, lhs: nat, shape: ArrayConstraints, parts: seq<Word>,
      w: Word)
    requires Represents(c, b) && ArrayLowered(b, kinds, lhs, shape) && ArrayOf(Generated(c), shape, parts, w)
    requires NeverEmpty(Generated(c), kinds)
    ensures Generates(c, lhs, w)
  {
    hide Generated, PositionRules;
    PastPrefix(Generated(c), shape, parts);
    if !Unsatisfiable(kinds, shape) {
      var states :| StatesFor(b, kinds, lhs, shape, states);
      FitsContinues(Generated(c), kinds, shape, parts);
      RunIff(Generated(c), kinds, shape, 0, parts);
      PositionBack(c, b, kinds, shape, states, 0, parts);
      BracketWord(c, b, lhs, OPEN_ARRAY, states[0], CLOSE_ARRAY, Join(parts));
    }
  }

  // ---------- The lowering ----------

  lemma ItemKnown(kinds: seq<NormalizedSchema>, shape: ArrayConstraints, i: nat, count: nat)
    requires RefsKnown(count, shape) && ItemAt(kinds, shape, i).Some?
    ensures ItemAt(kinds, shape, i).value < count
  {
    if i < |shape.prefixItems| {
      assert shape.prefixItems[i] in shape.prefixItems;
    }
  }

  // The rules of one position.
  method LowerPosition(builder: GrammarBuilder, kinds: seq<NormalizedSchema>, place: nat, shape: ArrayConstraints,
      states: seq<nat>, i: nat)
    returns (r: Result<()>)
    requires builder.Valid() && i < |states| && (forall s <- states :: s < builder.nonterminals)
    requires RefsKnown(builder.nonterminals, shape)
    requires RulesOf(builder.productions, states[i]) == []
    modifies builder
    ensures r.Err? ==> r.error.ResourceLimitExceeded?
    ensures Costs(builder.limits, old(builder.Value()), builder.Value(), r, 6)
    ensures r.Ok? ==> builder.Valid() && Touches(old(builder.Value()), builder.Value(), states[i])
                      && PositionRules(builder.Value(), kinds, shape, states, i)
  {
    hide RulesOf, GrammarOver, Weight, ProductionAnswer, SymbolAnswer, GrammarBuilder.Valid;
    assert states[i] in states && states[StateAt(|states| - 1, i + 1)] in states;
    if i >= shape.minItems {
      var end := builder.AddProduction(states[i], []);
      if end.Err? {
        return Err(end.error);
      }
    }
    var item := ItemAt(kinds, shape, i);
    if item.Some? {
      ItemKnown(kinds, shape, i, builder.nonterminals);
      var next := states[StateAt(|states| - 1, i + 1)];
      var rhs := [Nonterminal(item.value), Nonterminal(next)];
      if i != 0 {
        var comma := builder.AddLiteral(COMMA, place);
        if comma.Err? {
          return Err(comma.error);
        }
        rhs := [comma.value] + rhs;
      }
      var step := builder.AddProduction(states[i], rhs);
      if step.Err? {
        return Err(step.error);
      }
    }
    return Ok(());
  }

  // One nonterminal for each position.
  method AddPositions(builder: GrammarBuilder, count: nat) returns (r: Result<seq<nat>>)
    requires builder.Valid()
    modifies builder
    ensures r.Err? ==> r.error.ResourceLimitExceeded?
    ensures Costs(builder.limits, old(builder.Value()), builder.Value(), r, count)
    ensures r.Ok? ==> builder.Valid() && r.value == seq(count, i requires 0 <= i => old(builder.nonterminals) + i)
    ensures r.Ok? ==> builder.Value() == old(builder.Value()).(nonterminals := old(builder.nonterminals) + count)
  {
    var states: seq<nat> := [];
    for i := 0 to count
      invariant builder.Valid() && states == seq(i, k requires 0 <= k => old(builder.nonterminals) + k)
      invariant builder.Value() == old(builder.Value()).(nonterminals := old(builder.nonterminals) + i)
      invariant Weight(builder.Value()) <= Weight(old(builder.Value())) + i
    {
      var state := builder.AddNonterminal();
      if state.Err? {
        return Err(state.error);
      }
      states := states + [state.value];
    }
    return Ok(states);
  }

  lemma PositionKept(before: Built, after: Built, kinds: seq<NormalizedSchema>, shape: ArrayConstraints,
      states: seq<nat>, k: nat)
    requires k < |states| && PositionRules(before, kinds, shape, states, k) && before.terminals <= after.terminals
    requires RulesOf(after.productions, states[k]) == RulesOf(before.productions, states[k])
    ensures PositionRules(after, kinds, shape, states, k)
  {
  }

  // Before position `upto`: the rules are there; from it on, there are none.
  ghost predicate LoweringPositions(b: Built, kinds: seq<NormalizedSchema>, shape: ArrayConstraints, states: seq<nat>,
      lhs: nat, upto: nat)
    requires upto <= |states|
  {
    && (forall s <- states :: s < b.nonterminals)
    && (forall k: nat :: k < upto ==> PositionRules(b, kinds, shape, states, k))
    && (forall k: nat :: upto <= k < |states| ==> RulesOf(b.productions, states[k]) == [])
    && RulesOf(b.productions, lhs) == []
  }

  lemma PositionDone(before: Built, after: Built, kinds: seq<NormalizedSchema>, shape: ArrayConstraints,
      states: seq<nat>, lhs: nat, i: nat)
    requires i < |states| && LoweringPositions(before, kinds, shape, states, lhs, i)
    requires Touches(before, after, states[i])
    requires PositionRules(after, kinds, shape, states, i) && states[i] != lhs
    requires forall k, l :: 0 <= k < l < |states| ==> states[k] != states[l]
    ensures LoweringPositions(after, kinds, shape, states, lhs, i + 1)
  {
    hide PositionRules, RulesOf;
    forall k: nat | k < i + 1 ensures PositionRules(after, kinds, shape, states, k) {
      if k < i {
        PositionKept(before, after, kinds, shape, states, k);
      }
    }
  }

  lemma PositionsStart(before: Built, now: Built, kinds: seq<NormalizedSchema>, shape: ArrayConstraints,
      states: seq<nat>, lhs: nat)
    requires BuiltInRange(before) && lhs < before.nonterminals && RulesOf(before.productions, lhs) == []
    requires states == seq(|states|, i requires 0 <= i => before.nonterminals + i)
    requires now == before.(nonterminals := before.nonterminals + |states|)
    ensures LoweringPositions(now, kinds, shape, states, lhs, 0) && Grown(before, now, lhs)
    ensures forall k, l :: 0 <= k < l < |states| ==> states[k] != states[l]
    ensures forall s <- states :: s >= before.nonterminals
  {
    forall k: nat | k < |states| ensures RulesOf(now.productions, states[k]) == [] {
      NoRulesYet(before, states[k]);
    }
  }

  // The bracketed list; adds the one rule of `lhs`.
  method AddBrackets(builder: GrammarBuilder, lhs: nat, place: nat, open: Word, inner: nat, close: Word)
      returns (r: Result<()>)
    requires builder.Valid() && lhs < builder.nonterminals && inner < builder.nonterminals
    requires RulesOf(builder.productions, lhs) == []
    requires open != [] && close != []
    modifies builder
    ensures r.Err? ==> r.error.ResourceLimitExceeded?
    ensures Costs(builder.limits, old(builder.Value()), builder.Value(), r, 6)
    ensures r.Ok? ==> builder.Valid() && Touches(old(builder.Value()), builder.Value(), lhs)
                      && BracketRule(builder.Value(), lhs, open, inner, close)
  {
    hide RulesOf, GrammarOver, Weight, ProductionAnswer, SymbolAnswer, GrammarBuilder.Valid;
    var first := builder.AddLiteral(open, place);
    if first.Err? {
      return Err(first.error);
    }
    var last := builder.AddLiteral(close, place);
    if last.Err? {
      return Err(last.error);
    }
    var rhs := [first.value, Nonterminal(inner), last.value];
    var added := builder.AddProduction(lhs, rhs);
    if added.Err? {
      return Err(added.error);
    }
    return Ok(());
  }

  lemma BuilderRange(builder: GrammarBuilder)
    requires builder.Valid()
    ensures BuiltInRange(builder.Value())
  {
  }

  lemma RefsMore(count: nat, more: nat, shape: ArrayConstraints)
    requires RefsKnown(count, shape) && count <= more
    ensures RefsKnown(more, shape)
  {
  }

  lemma TouchesSize(before: Built, after: Built, a: nat)
    requires Touches(before, after, a)
    ensures after.nonterminals == before.nonterminals
  {
  }

  // What an array adds at most: for each position its nonterminal, two rules and a comma, and the brackets.
  function ArrayCost(kinds: seq<NormalizedSchema>, shape: ArrayConstraints): nat {
    7 * (Last(kinds, shape) + 1) + 6
  }

  lemma NonterminalsWeigh(b: Built)
    ensures b.nonterminals <= Weight(b)
  {
  }

  method LowerArray(builder: GrammarBuilder, kinds: seq<NormalizedSchema>, lhs: nat, place: nat,
      shape: ArrayConstraints) returns (r: Result<()>)
    requires builder.Valid() && lhs < |kinds| <= builder.nonterminals && RefsKnown(builder.nonterminals, shape)
    requires RulesOf(builder.productions, lhs) == []
    modifies builder
    ensures Costs(builder.limits, old(builder.Value()), builder.Value(), r, ArrayCost(kinds, shape))
    ensures if OpenEnded(kinds, shape) then r.Err? && r.error.UnsupportedCombination?
            else r.Err? ==> r.error.ResourceLimitExceeded?
    ensures r.Ok? ==> builder.Valid() && Grown(old(builder.Value()), builder.Value(), lhs)
                      && ArrayLowered(builder.Value(), kinds, lhs, shape)
  {
    hide RulesOf, PositionRules, Grown, Touches, GrammarBuilder.Valid, BracketRule, RefsKnown, Weight;
    NonterminalsWeigh(builder.Value());
    GrownSame(builder.Value(), lhs);
    BuilderRange(builder);
    var effective := EffectiveMax(kinds, shape);
    if effective.Some? && effective.value < shape.minItems {
      return Ok(());
    }
    if effective.None? && shape.items.None? {
      return Err(UnsupportedCombination(UnboundedItems));
    }
    if effective.Some? && effective.value > |shape.prefixItems| && shape.items.None? {
      return Err(UnsupportedCombination(RemainderItems));
    }
    var stateCount := Last(kinds, shape) + 1;
    if builder.nonterminals + stateCount > builder.limits.maxSymbols {
      return Err(ResourceLimitExceeded(Lowering, builder.nonterminals + stateCount, builder.limits.maxSymbols));
    }
    ghost var before := builder.Value();
    var added := AddPositions(builder, stateCount);
    if added.Err? {
      return Err(added.error);
    }
    var states := added.value;
    PositionsStart(before, builder.Value(), kinds, shape, states, lhs);
    for i := 0 to stateCount
      invariant builder.Valid() && builder.nonterminals == before.nonterminals + stateCount
      invariant LoweringPositions(builder.Value(), kinds, shape, states, lhs, i) && Grown(before, builder.Value(), lhs)
      invariant Weight(builder.Value()) <= Weight(before) + stateCount + 6 * i
    {
      ghost var now := builder.Value();
      assert states[i] in states;
      RefsMore(before.nonterminals, builder.nonterminals, shape);
      var position := LowerPosition(builder, kinds, place, shape, states, i);
      if position.Err? {
        return Err(position.error);
      }
      TouchesSize(now, builder.Value(), states[i]);
      PositionDone(now, builder.Value(), kinds, shape, states, lhs, i);
      TouchesGrown(before, now, builder.Value(), lhs, states[i]);
    }
    ghost var now := builder.Value();
    assert states[0] in states;
    r := AddBrackets(builder, lhs, place, OPEN_ARRAY, states[0], CLOSE_ARRAY);
    if r.Ok? {
      TouchesSize(now, builder.Value(), lhs);
      PositionsKept(now, builder.Value(), kinds, shape, states, lhs);
      TouchesGrown(before, now, builder.Value(), lhs, lhs);
      assert StatesFor(builder.Value(), kinds, lhs, shape, states);
    }
  }

  lemma PositionsKept(before: Built, after: Built, kinds: seq<NormalizedSchema>, shape: ArrayConstraints,
      states: seq<nat>, lhs: nat)
    requires LoweringPositions(before, kinds, shape, states, lhs, |states|) && Touches(before, after, lhs)
    requires lhs !in states
    ensures forall k: nat :: k < |states| ==> PositionRules(after, kinds, shape, states, k)
  {
    hide PositionRules, RulesOf;
    forall k: nat | k < |states| ensures PositionRules(after, kinds, shape, states, k) {
      assert states[k] in states;
      PositionKept(before, after, kinds, shape, states, k);
    }
  }

  // The rules of the array stay while others are added.
  lemma ArrayStays(before: Built, after: Built, kinds: seq<NormalizedSchema>, k: nat, shape: ArrayConstraints, lhs: nat)
    requires ArrayLowered(before, kinds, k, shape) && Grown(before, after, lhs) && k != lhs && lhs < |kinds|
    requires k < |kinds| <= before.nonterminals
    ensures ArrayLowered(after, kinds, k, shape)
  {
    hide RulesOf, PositionRules;
    if !Unsatisfiable(kinds, shape) {
      var states :| StatesFor(before, kinds, k, shape, states);
      forall i: nat | i < |states| ensures PositionRules(after, kinds, shape, states, i) {
        assert states[i] in states;
        PositionKept(before, after, kinds, shape, states, i);
      }
      assert StatesFor(after, kinds, k, shape, states);
    }
  }
}
