/**
 Lowering a whole schema arena to a grammar, one nonterminal per schema.  The languages of the schema nonterminals
 are the least family of string sets that satisfies every schema.
 */
module Lowerings {
  import opened Grammars
  import opened CompileErrors
  import opened RegularExpressions
  import opened SchemaGrammars
  import opened JsonSchemas
  import opened LoweredRules
  import opened ArrayLowering
  import opened ObjectLowering

  // ---------- What each schema's nonterminal is given ----------

  ghost predicate OnePattern(b: Built, lhs: nat, forward: string) {
    var rules := RulesOf(b.productions, lhs);
    |rules| == 1 && |rules[0]| == 1 && IsPattern(b.terminals, rules[0][0], forward)
  }

  ghost predicate Literals(b: Built, lhs: nat, values: seq<Word>) {
    var rules := RulesOf(b.productions, lhs);
    |rules| == |values|
      && forall i: nat :: i < |values| ==> |rules[i]| == 1 && IsLiteral(b.terminals, rules[i][0], values[i])
  }

  ghost predicate Renames(b: Built, lhs: nat, targets: seq<nat>) {
    var rules := RulesOf(b.productions, lhs);
    |rules| == |targets| && forall i: nat :: i < |targets| ==> rules[i] == [Nonterminal(targets[i])]
  }

  ghost predicate Lowered(b: Built, kinds: seq<NormalizedSchema>, quote: Quoting, lhs: nat, kind: NormalizedSchema) {
    match kind
    case AnyValue => false
    case Never => RulesOf(b.productions, lhs) == []
    case NullValue => OnePattern(b, lhs, PatternText(kind))
    case BooleanValue => OnePattern(b, lhs, PatternText(kind))
    case StringValue(minLength, maxLength) => minLength == 0 && maxLength.None? && OnePattern(b, lhs, PatternText(kind))
    case NumberValue => OnePattern(b, lhs, PatternText(kind))
    case IntegerValue => OnePattern(b, lhs, PatternText(kind))
    case Const(json) => Literals(b, lhs, [json])
    case Enum(values) => Literals(b, lhs, values)
    case ArrayValue(shape) => ArrayLowered(b, kinds, lhs, shape)
    case ObjectValue(fields) => ObjectLowered(b, quote, |kinds|, lhs, fields)
    case Union(branches) => Renames(b, lhs, branches)
    case Ref(target) => Renames(b, lhs, [target])
  }

  // ---------- What the rules derive ----------

  ghost predicate MeaningFor(c: Cfg, b: Built, meaning: Meaning) {
    Represents(c, b) && forall i: nat :: i < |b.terminals| ==> c.languages[i] == b.terminals[i].Language(meaning)
  }

  lemma OneSymbolTree(c: Cfg, t: Tree, lhs: nat, rule: seq<Symbol>) returns (u: Tree)
    requires t.Node? && TreeFor(c, t, Nonterminal(lhs)) && |rule| == 1 && ForestFor(c, t.kids, rule)
    ensures TreeFor(c, u, rule[0]) && u < t.kids && Yield(u) == Yield(t)
  {
    assert rule == [rule[0]];
    SingleForest(c, t.kids, rule[0]);
    u := t.kids.head;
  }

  lemma OneSymbolWord(c: Cfg, lhs: nat, i: nat, w: Word)
    requires i < |RulesOf(c.productions, lhs)| && |RulesOf(c.productions, lhs)[i]| == 1
    requires Derives(c, [RulesOf(c.productions, lhs)[i][0]], w)
    ensures Generates(c, lhs, w)
  {
    var rule := RulesOf(c.productions, lhs)[i];
    assert rule == [rule[0]];
    RuleGenerates(c, lhs, rule, w);
  }

  lemma PatternExact(c: Cfg, b: Built, meaning: Meaning, lhs: nat, forward: string, w: Word)
    requires MeaningFor(c, b, meaning) && OnePattern(b, lhs, forward)
    ensures Generates(c, lhs, w) <==> w in meaning(forward)
  {
    var s := RulesOf(b.productions, lhs)[0][0];
    DerivesTerminal(c, s.id, w);
    if Generates(c, lhs, w) {
      var t: Tree :| TreeFor(c, t, Nonterminal(lhs)) && Yield(t) == w;
      var rule := TreeByRule(c, t, lhs);
      var u := OneSymbolTree(c, t, lhs, rule);
    }
    if w in meaning(forward) {
      OneSymbolWord(c, lhs, 0, w);
    }
  }

  lemma LiteralsExact(c: Cfg, b: Built, lhs: nat, values: seq<Word>, w: Word)
    requires Represents(c, b) && Literals(b, lhs, values)
    ensures Generates(c, lhs, w) <==> w in values
  {
    var rules := RulesOf(b.productions, lhs);
    if Generates(c, lhs, w) {
      var t: Tree :| TreeFor(c, t, Nonterminal(lhs)) && Yield(t) == w;
      var rule := TreeByRule(c, t, lhs);
      var i: nat :| i < |rules| && rules[i] == rule;
      var u := OneSymbolTree(c, t, lhs, rule);
      LiteralLeaf(c, b, u, rule[0], values[i]);
    }
    if w in values {
      var i: nat :| i < |values| && values[i] == w;
      LiteralDerives(c, b, rules[i][0], w);
      OneSymbolWord(c, lhs, i, w);
    }
  }

  lemma RenamesTree(c: Cfg, b: Built, lhs: nat, targets: seq<nat>, t: Tree)
    requires Represents(c, b) && Renames(b, lhs, targets) && TreeFor(c, t, Nonterminal(lhs))
    ensures t.Node? && exists target: nat :: target in targets && Yield(t) in Below(c, t.kids)(target)
  {
    var rules := RulesOf(b.productions, lhs);
    var rule := TreeByRule(c, t, lhs);
    var i: nat :| i < |rules| && rules[i] == rule;
    var u := OneSymbolTree(c, t, lhs, rule);
    assert YieldedBelow(c, t.kids, targets[i], Yield(t));
    assert targets[i] in targets;
  }

  lemma RenamesWord(c: Cfg, b: Built, lhs: nat, targets: seq<nat>, target: nat, w: Word)
    requires Represents(c, b) && Renames(b, lhs, targets) && target in targets && Generates(c, target, w)
    ensures Generates(c, lhs, w)
  {
    var i: nat :| i < |targets| && targets[i] == target;
    DerivesNonterminal(c, target, w);
    OneSymbolWord(c, lhs, i, w);
  }

  // A tree of a schema's nonterminal yields what the schema admits of the words of smaller trees.
  lemma TreeAdmitted(c: Cfg, b: Built, meaning: Meaning, quote: Quoting, kinds: seq<NormalizedSchema>, lhs: nat,
      kind: NormalizedSchema, t: Tree)
    requires MeaningFor(c, b, meaning) && Lowered(b, kinds, quote, lhs, kind) && TreeFor(c, t, Nonterminal(lhs))
    ensures t.Node? && Admits(meaning, quote, Below(c, t.kids), kind, Yield(t))
  {
    hide PatternText, OnePattern, Literals, Renames, ArrayLowered, ObjectLowered, Represents, Below, ArrayOf, ObjectOf,
      MeaningFor;
    MeaningRepresents(c, b, meaning);
    assert Generates(c, lhs, Yield(t));
    var rule := TreeByRule(c, t, lhs);
    match kind
    case NullValue => PatternExact(c, b, meaning, lhs, PatternText(kind), Yield(t));
    case BooleanValue => PatternExact(c, b, meaning, lhs, PatternText(kind), Yield(t));
    case StringValue(_, _) => PatternExact(c, b, meaning, lhs, PatternText(kind), Yield(t));
    case NumberValue => PatternExact(c, b, meaning, lhs, PatternText(kind), Yield(t));
    case IntegerValue => PatternExact(c, b, meaning, lhs, PatternText(kind), Yield(t));
    case Const(json) => LiteralsExact(c, b, lhs, [json], Yield(t));
    case Enum(values) => LiteralsExact(c, b, lhs, values, Yield(t));
    case ArrayValue(shape) =>
      var parts := ArrayTree(c, b, kinds, lhs, shape, t);
    case ObjectValue(fields) =>
      var values := ObjectTree(c, b, quote, |kinds|, lhs, fields, t);
    case Union(branches) => RenamesTree(c, b, lhs, branches, t);
    case Ref(target) => RenamesTree(c, b, lhs, [target], t);
    case _ =>
  }

  lemma MeaningRepresents(c: Cfg, b: Built, meaning: Meaning)
    requires MeaningFor(c, b, meaning)
    ensures Represents(c, b) && c.productions == b.productions
  {
  }

  // What a schema admits of derived words is derived.
  lemma AdmittedGenerates(c: Cfg, b: Built, meaning: Meaning, quote: Quoting, kinds: seq<NormalizedSchema>, lhs: nat,
      kind: NormalizedSchema, w: Word)
    requires MeaningFor(c, b, meaning) && Lowered(b, kinds, quote, lhs, kind) && NeverEmpty(Generated(c), kinds)
    requires Admits(meaning, quote, Generated(c), kind, w)
    ensures Generates(c, lhs, w)
  {
    hide PatternText, OnePattern, Literals, Renames, ArrayLowered, ObjectLowered, Represents, ArrayOf, ObjectOf,
      MeaningFor, NeverEmpty;
    MeaningRepresents(c, b, meaning);
    match kind
    case NullValue => PatternExact(c, b, meaning, lhs, PatternText(kind), w);
    case BooleanValue => PatternExact(c, b, meaning, lhs, PatternText(kind), w);
    case StringValue(_, _) => PatternExact(c, b, meaning, lhs, PatternText(kind), w);
    case NumberValue => PatternExact(c, b, meaning, lhs, PatternText(kind), w);
    case IntegerValue => PatternExact(c, b, meaning, lhs, PatternText(kind), w);
    case Const(json) => LiteralsExact(c, b, lhs, [json], w);
    case Enum(values) => LiteralsExact(c, b, lhs, values, w);
    case ArrayValue(shape) =>
      var parts: seq<Word> :| ArrayOf(Generated(c), shape, parts, w);
      ArrayWord(c, b, kinds, lhs, shape, parts, w);
    case ObjectValue(fields) =>
      var values: seq<Option<Word>> :| ObjectOf(Generated(c), quote, fields, values, w);
      ObjectWord(c, b, quote, |kinds|, lhs, fields, values, w);
    case Union(branches) =>
      var target :| target in branches && w in Generated(c)(target);
      RenamesWord(c, b, lhs, branches, target, w);
    case Ref(target) => RenamesWord(c, b, lhs, [target], target, w);
    case _ =>
  }

  // ---------- The whole arena ----------

  ghost predicate AllLowered(b: Built, arena: Arena, quote: Quoting, upto: nat)
    requires upto <= |arena.kinds|
  {
    && (forall k: nat :: k < upto ==> Lowered(b, arena.kinds, quote, k, arena.kinds[k]))
    && (forall k: nat :: upto <= k < |arena.kinds| ==> RulesOf(b.productions, k) == [])
  }

  // A family of string sets that satisfies every schema, in the direction that makes sets grow.
  ghost predicate Satisfies(arena: Arena, meaning: Meaning, quote: Quoting, strings: Strings) {
    forall k: nat, w: Word :: k < |arena.kinds| && Admits(meaning, quote, strings, arena.kinds[k], w) ==>
      w in strings(k)
  }

  lemma NeverGenerated(c: Cfg, b: Built, arena: Arena, meaning: Meaning, quote: Quoting)
    requires MeaningFor(c, b, meaning) && AllLowered(b, arena, quote, |arena.kinds|)
    ensures NeverEmpty(Generated(c), arena.kinds)
  {
    hide MeaningFor;
    MeaningRepresents(c, b, meaning);
    forall k: nat, w: Word | IsNever(arena.kinds, k) ensures !Generates(c, k, w) {
      assert Lowered(b, arena.kinds, quote, k, arena.kinds[k]);
      if t: Tree :| TreeFor(c, t, Nonterminal(k)) && Yield(t) == w {
        var rule := TreeByRule(c, t, k);
      }
    }
  }

  lemma BelowGenerated(c: Cfg, bound: Forest, k: nat, w: Word)
    ensures w in Below(c, bound)(k) ==> w in Generated(c)(k)
  {
  }

  // Every schema's nonterminal derives exactly what the schema admits, given what its subschemas' nonterminals derive.
  lemma LoweringExact(c: Cfg, b: Built, arena: Arena, meaning: Meaning, quote: Quoting, k: nat, w: Word)
    requires MeaningFor(c, b, meaning) && AllLowered(b, arena, quote, |arena.kinds|) && k < |arena.kinds|
    requires ArenaKnown(arena)
    ensures Generates(c, k, w) <==> Admits(meaning, quote, Generated(c), arena.kinds[k], w)
  {
    hide MeaningFor, Admits, Below, Generated, Lowered;
    NeverGenerated(c, b, arena, meaning, quote);
    var kind := arena.kinds[k];
    assert Lowered(b, arena.kinds, quote, k, kind);
    if Generates(c, k, w) {
      var t: Tree :| TreeFor(c, t, Nonterminal(k)) && Yield(t) == w;
      TreeAdmitted(c, b, meaning, quote, arena.kinds, k, kind, t);
      forall j: nat, x: Word ensures x in Below(c, t.kids)(j) ==> x in Generated(c)(j) {
        BelowGenerated(c, t.kids, j, x);
      }
      assert kind in arena.kinds;
      AdmitsMore(meaning, quote, Below(c, t.kids), Generated(c), |arena.kinds|, kind, w);
    }
    if Admits(meaning, quote, Generated(c), kind, w) {
      AdmittedGenerates(c, b, meaning, quote, arena.kinds, k, kind, w);
    }
  }

  // And no family that satisfies the schemas is smaller.
  lemma {:induction false} LoweringLeast(c: Cfg, b: Built, arena: Arena, meaning: Meaning, quote: Quoting,
      strings: Strings, k: nat, t: Tree)
    requires MeaningFor(c, b, meaning) && AllLowered(b, arena, quote, |arena.kinds|) && k < |arena.kinds|
    requires ArenaKnown(arena)
    requires Satisfies(arena, meaning, quote, strings) && TreeFor(c, t, Nonterminal(k))
    ensures Yield(t) in strings(k)
    decreases t
  {
    hide MeaningFor, Admits, Below, Lowered;
    var kind := arena.kinds[k];
    assert Lowered(b, arena.kinds, quote, k, kind);
    TreeAdmitted(c, b, meaning, quote, arena.kinds, k, kind, t);
    forall j: nat, x: Word | j < |arena.kinds| && x in Below(c, t.kids)(j) ensures x in strings(j) {
      var u := TreeBelow(c, t.kids, j, x);
      LoweringLeast(c, b, arena, meaning, quote, strings, j, u);
    }
    assert kind in arena.kinds;
    AdmitsMore(meaning, quote, Below(c, t.kids), strings, |arena.kinds|, kind, Yield(t));
  }

  lemma TreeBelow(c: Cfg, bound: Forest, k: nat, w: Word) returns (t: Tree)
    requires w in Below(c, bound)(k)
    ensures t < bound && TreeFor(c, t, Nonterminal(k)) && Yield(t) == w
  {
    assert YieldedBelow(c, bound, k, w);
    t :| t < bound && TreeFor(c, t, Nonterminal(k)) && Yield(t) == w;
  }

  // ---------- The methods ----------

  lemma GrownByTouch(before: Built, after: Built, lhs: nat)
    requires Touches(before, after, lhs)
    ensures Grown(before, after, lhs)
  {
  }

  method LowerPattern(builder: GrammarBuilder, lhs: nat, kind: NormalizedSchema) returns (r: Result<()>)
    requires builder.Valid() && lhs < builder.nonterminals && RulesOf(builder.productions, lhs) == []
    modifies builder
    ensures r.Err? ==> r.error.ResourceLimitExceeded?
    ensures Costs(builder.limits, old(builder.Value()), builder.Value(), r, 3)
    ensures r.Ok? ==>
            builder.Valid() && Grown(old(builder.Value()), builder.Value(), lhs)
            && OnePattern(builder.Value(), lhs, PatternText(kind))
  {
    hide RulesOf, GrammarOver, Weight, ProductionAnswer, SymbolAnswer, PatternText;
    var terminal := builder.AddPattern(kind);
    if terminal.Err? {
      return Err(terminal.error);
    }
    var added := builder.AddProduction(lhs, [terminal.value]);
    if added.Err? {
      return Err(added.error);
    }
    GrownByTouch(old(builder.Value()), builder.Value(), lhs);
    return Ok(());
  }

  lemma NoLiterals(b: Built, lhs: nat)
    requires RulesOf(b.productions, lhs) == []
    ensures Literals(b, lhs, []) && Touches(b, b, lhs)
  {
  }

  // One more literal, entered between `before` and `between`, and its rule.
  lemma LiteralAdded(before: Built, between: Built, after: Built, lhs: nat, values: seq<Word>, i: nat, s: Symbol)
    requires i < |values| && Literals(before, lhs, values[..i]) && before.terminals <= between.terminals
    requires before.productions == between.productions && between.terminals <= after.terminals
    requires IsLiteral(between.terminals, s, values[i])
    requires RulesOf(after.productions, lhs) == RulesOf(between.productions, lhs) + [[s]]
    ensures Literals(after, lhs, values[..i + 1])
  {
    hide RulesOf;
    var rules := RulesOf(before.productions, lhs);
    forall k: nat | k < i ensures |rules[k]| == 1 && IsLiteral(after.terminals, rules[k][0], values[..i + 1][k]) {
      assert values[..i][k] == values[k];
    }
  }

  lemma TouchesMore(start: Built, before: Built, between: Built, after: Built, lhs: nat)
    requires Touches(start, before, lhs) && before.nonterminals == between.nonterminals
    requires before.terminals <= between.terminals && before.productions == between.productions
    requires Touches(between, after, lhs)
    ensures Touches(start, after, lhs)
  {
    hide RulesOf;
  }

  method LowerLiterals(builder: GrammarBuilder, lhs: nat, place: nat, values: seq<Word>) returns (r: Result<()>)
    requires builder.Valid() && lhs < builder.nonterminals && RulesOf(builder.productions, lhs) == []
    requires forall json <- values :: json != []
    modifies builder
    ensures r.Err? ==> r.error.ResourceLimitExceeded?
    ensures Costs(builder.limits, old(builder.Value()), builder.Value(), r, 3 * |values|)
    ensures r.Ok? ==>
            builder.Valid() && Grown(old(builder.Value()), builder.Value(), lhs)
            && Literals(builder.Value(), lhs, values)
  {
    hide RulesOf, GrammarOver, Weight, ProductionAnswer, SymbolAnswer, Literals, Touches;
    NoLiterals(builder.Value(), lhs);
    for i := 0 to |values|
      invariant builder.Valid() && builder.nonterminals == old(builder.nonterminals)
      invariant Weight(builder.Value()) <= Weight(old(builder.Value())) + 3 * i
      invariant Touches(old(builder.Value()), builder.Value(), lhs) && Literals(builder.Value(), lhs, values[..i])
    {
      assert values[i] in values;
      ghost var before := builder.Value();
      var terminal := builder.AddLiteral(values[i], place);
      if terminal.Err? {
        return Err(terminal.error);
      }
      ghost var between := builder.Value();
      var added := builder.AddProduction(lhs, [terminal.value]);
      if added.Err? {
        return Err(added.error);
      }
      LiteralAdded(before, between, builder.Value(), lhs, values, i, terminal.value);
      TouchesMore(old(builder.Value()), before, between, builder.Value(), lhs);
    }
    assert values[..|values|] == values;
    GrownByTouch(old(builder.Value()), builder.Value(), lhs);
    return Ok(());
  }

  method LowerTargets(builder: GrammarBuilder, lhs: nat, targets: seq<nat>) returns (r: Result<()>)
    requires builder.Valid() && lhs < builder.nonterminals && RulesOf(builder.productions, lhs) == []
    requires forall target <- targets :: target < builder.nonterminals
    modifies builder
    ensures r.Err? ==> r.error.ResourceLimitExceeded?
    ensures Costs(builder.limits, old(builder.Value()), builder.Value(), r, 2 * |targets|)
    ensures r.Ok? ==>
            builder.Valid() && Grown(old(builder.Value()), builder.Value(), lhs)
            && Renames(builder.Value(), lhs, targets)
  {
    hide RulesOf, GrammarOver, Weight, ProductionAnswer, SymbolAnswer;
    for i := 0 to |targets|
      invariant builder.Valid() && builder.nonterminals == old(builder.nonterminals)
      invariant Weight(builder.Value()) <= Weight(old(builder.Value())) + 2 * i
      invariant Touches(old(builder.Value()), builder.Value(), lhs) && Renames(builder.Value(), lhs, targets[..i])
    {
      assert targets[i] in targets;
      var added := builder.AddProduction(lhs, [Nonterminal(targets[i])]);
      if added.Err? {
        return Err(added.error);
      }
    }
    assert targets[..|targets|] == targets;
    GrownByTouch(old(builder.Value()), builder.Value(), lhs);
    return Ok(());
  }

  // Schemas the grammar cannot express.
  predicate Unsupported(kinds: seq<NormalizedSchema>, kind: NormalizedSchema) {
    match kind
    case AnyValue => true
    case StringValue(minLength, maxLength) => minLength != 0 || maxLength.Some?
    case ArrayValue(shape) => OpenEnded(kinds, shape)
    case ObjectValue(fields) => fields.additional != Forbidden
    case _ => false
  }

  // What a schema adds to the grammar at most, beside its own nonterminal.
  function NodeCost(kinds: seq<NormalizedSchema>, kind: NormalizedSchema): nat {
    match kind
    case Union(branches) => 2 * |branches|
    case Enum(values) => 3 * |values|
    case ArrayValue(shape) => ArrayCost(kinds, shape)
    case ObjectValue(fields) => ObjectCost(fields)
    case _ => 3
  }

  // The first `k` schemas.
  function KindsCost(kinds: seq<NormalizedSchema>, k: nat): nat
    requires k <= |kinds|
  {
    if k == 0 then 0 else KindsCost(kinds, k - 1) + NodeCost(kinds, kinds[k - 1])
  }

  function ArenaCost(arena: Arena): nat {
    |arena.kinds| + KindsCost(arena.kinds, |arena.kinds|)
  }

  lemma {:induction false} KindsCostGrows(kinds: seq<NormalizedSchema>, k: nat)
    requires k <= |kinds|
    ensures KindsCost(kinds, k) <= KindsCost(kinds, |kinds|)
    decreases |kinds| - k
  {
    if k < |kinds| {
      KindsCostGrows(kinds, k + 1);
    }
  }

  // Schemas without subschemas.
  method LowerScalar(builder: GrammarBuilder, kinds: seq<NormalizedSchema>, quote: Quoting, lhs: nat,
      kind: NormalizedSchema) returns (r: Result<()>)
    requires builder.Valid() && lhs < builder.nonterminals && RulesOf(builder.productions, lhs) == []
    requires !kind.ArrayValue? && !kind.ObjectValue? && !kind.Union? && !kind.Ref?
    requires KindKnown(builder.nonterminals, kind)
    modifies builder
    ensures Costs(builder.limits, old(builder.Value()), builder.Value(), r, NodeCost(kinds, kind))
    ensures if Unsupported(kinds, kind) then r.Err? && r.error.UnsupportedCombination?
            else r.Err? ==> r.error.ResourceLimitExceeded?
    ensures r.Ok? ==>
            builder.Valid() && Grown(old(builder.Value()), builder.Value(), lhs)
            && Lowered(builder.Value(), kinds, quote, lhs, kind)
  {
    hide RulesOf, GrammarOver, Weight, ProductionAnswer, SymbolAnswer, OnePattern, Literals, Grown,
      GrammarBuilder.Valid, PatternText;
    GrownSame(builder.Value(), lhs);
    if kind.AnyValue? {
      r := Err(UnsupportedCombination(AnyObject));
    } else if kind.Never? {
      r := Ok(());
    } else if kind.Const? {
      r := LowerLiterals(builder, lhs, lhs, [kind.json]);
    } else if kind.Enum? {
      r := LowerLiterals(builder, lhs, lhs, kind.values);
    } else if kind.StringValue? && (kind.minLength != 0 || kind.maxLength.Some?) {
      r := Err(UnsupportedCombination(StringLength));
    } else {
      r := LowerPattern(builder, lhs, kind);
    }
  }

  method LowerNode(builder: GrammarBuilder, kinds: seq<NormalizedSchema>, quote: Quoting, lhs: nat,
      kind: NormalizedSchema) returns (r: Result<()>)
    requires builder.Valid() && lhs < |kinds| <= builder.nonterminals && KindKnown(builder.nonterminals, kind)
    requires RulesOf(builder.productions, lhs) == [] && QuotesSomething(quote)
    modifies builder
    ensures Costs(builder.limits, old(builder.Value()), builder.Value(), r, NodeCost(kinds, kind))
    ensures if Unsupported(kinds, kind) then r.Err? && r.error.UnsupportedCombination?
            else r.Err? ==> r.error.ResourceLimitExceeded?
    ensures r.Ok? ==>
            builder.Valid() && Grown(old(builder.Value()), builder.Value(), lhs)
            && Lowered(builder.Value(), kinds, quote, lhs, kind)
  {
    hide RulesOf, GrammarOver, Weight, ProductionAnswer, SymbolAnswer, OnePattern, Literals, Renames, ArrayLowered,
      ObjectLowered, Grown, GrammarBuilder.Valid, RefsKnown, FieldsKnown, OpenEnded;
    match kind {
      case Union(branches) => r := LowerTargets(builder, lhs, branches);
      case Ref(target) => r := LowerTargets(builder, lhs, [target]);
      case ArrayValue(shape) => r := LowerArray(builder, kinds, lhs, lhs, shape);
      case ObjectValue(fields) => r := LowerObject(builder, quote, |kinds|, lhs, lhs, fields);
      case _ => r := LowerScalar(builder, kinds, quote, lhs, kind);
    }
  }

  // A lowered schema stays lowered while others are lowered.
  lemma LoweredStays(before: Built, after: Built, kinds: seq<NormalizedSchema>, quote: Quoting, k: nat, lhs: nat)
    requires Grown(before, after, lhs) && k < |kinds| <= before.nonterminals && k != lhs && lhs < |kinds|
    requires Lowered(before, kinds, quote, k, kinds[k])
    ensures Lowered(after, kinds, quote, k, kinds[k])
  {
    hide RulesOf, ArrayLowered, ObjectLowered;
    match kinds[k]
    case ArrayValue(shape) => ArrayStays(before, after, kinds, k, shape, lhs);
    case ObjectValue(fields) => ObjectStays(before, after, quote, |kinds|, k, fields, lhs);
    case _ =>
  }

  lemma OneMoreLowered(before: Built, after: Built, arena: Arena, quote: Quoting, k: nat)
    requires k < |arena.kinds| <= before.nonterminals && AllLowered(before, arena, quote, k) && Grown(before, after, k)
    requires Lowered(after, arena.kinds, quote, k, arena.kinds[k])
    ensures AllLowered(after, arena, quote, k + 1)
  {
    hide RulesOf, Lowered;
    forall j: nat | j < k + 1 ensures Lowered(after, arena.kinds, quote, j, arena.kinds[j]) {
      if j < k {
        LoweredStays(before, after, arena.kinds, quote, j, k);
      }
    }
  }

  // A larger count knows whatever a smaller one does.
  lemma KindKnownMore(arena: Arena, k: nat, count: nat)
    requires ArenaKnown(arena) && k < |arena.kinds| <= count
    ensures KindKnown(count, arena.kinds[k])
  {
    assert arena.kinds[k] in arena.kinds;
  }

  // The sizes of a grammar are within the limits.
  predicate GrammarWithin(g: Grammar, limits: GrammarLimits) {
    && g.nonterminals + |g.terminals| <= limits.maxSymbols && |g.productions| <= limits.maxProductions
    && RhsTotal(g.productions) <= limits.maxRhsSymbols
  }

  // Each limit covers what the schemas can add.
  predicate RoomFor(arena: Arena, limits: GrammarLimits) {
    && ArenaCost(arena) <= limits.maxSymbols && ArenaCost(arena) <= limits.maxProductions
    && ArenaCost(arena) <= limits.maxRhsSymbols
  }

  lemma NoRoom(arena: Arena, limits: GrammarLimits, e: CompileError)
    requires GrammarOver(limits, e) && e.observed <= ArenaCost(arena)
    ensures !RoomFor(arena, limits)
  {
  }

  lemma NonterminalsOnly(k: nat)
    ensures Weight(Built(k, [], [])) == k
  {
  }

  // The grammar of the arena: its languages solve the schemas, and nothing smaller does.
  method Lower(arena: Arena, quote: Quoting, limits: GrammarLimits) returns (r: Result<Grammar>)
    requires ArenaKnown(arena) && QuotesSomething(quote)
    ensures r.Err? ==>
            || (GrammarOver(limits, r.error) && r.error.observed <= ArenaCost(arena))
            || (r.error.UnsupportedCombination? && exists kind <- arena.kinds :: Unsupported(arena.kinds, kind))
    ensures r.Ok? ==> GrammarWithin(r.value, limits) && forall kind <- arena.kinds :: !Unsupported(arena.kinds, kind)
    ensures RoomFor(arena, limits) && (forall kind <- arena.kinds :: !Unsupported(arena.kinds, kind)) ==> r.Ok?
    ensures r.Ok? ==> (forall t <- r.value.terminals :: Plain(t))
    ensures r.Ok? ==> InRange(r.value) && r.value.start == arena.root && |arena.kinds| <= r.value.nonterminals
    ensures r.Ok? ==>
            forall meaning: Meaning ::
            Solves(arena, quote, meaning, CfgFor(meaning, r.value))
            && Least(arena, quote, meaning, CfgFor(meaning, r.value))
  {
    hide RulesOf, GrammarOver, Weight, ProductionAnswer, SymbolAnswer, Lowered, Solves, Least, ArenaKnown, BuiltInRange,
      Unsupported;
    var builder := new GrammarBuilder(limits);
    RootKnown(arena);
    for k := 0 to |arena.kinds|
      invariant builder.Valid() && builder.Value() == Built(k, [], [])
    {
      NonterminalsOnly(k);
      var added := builder.AddNonterminal();
      if added.Err? {
        NoRoom(arena, limits, added.error);
        return Err(added.error);
      }
    }
    NonterminalsOnly(|arena.kinds|);
    NothingLowered(arena, quote);
    for k := 0 to |arena.kinds|
      invariant builder.Valid() && |arena.kinds| <= builder.nonterminals && AllLowered(builder.Value(), arena, quote, k)
      invariant Weight(builder.Value()) <= |arena.kinds| + KindsCost(arena.kinds, k)
      invariant forall kind <- arena.kinds[..k] :: !Unsupported(arena.kinds, kind)
    {
      KindsCostGrows(arena.kinds, k + 1);
      ghost var before := builder.Value();
      KindKnownMore(arena, k, builder.nonterminals);
      var node := LowerNode(builder, arena.kinds, quote, k, arena.kinds[k]);
      if node.Err? {
        assert arena.kinds[k] in arena.kinds;
        if node.error.ResourceLimitExceeded? {
          NoRoom(arena, limits, node.error);
        }
        return Err(node.error);
      }
      OneMoreLowered(before, builder.Value(), arena, quote, k);
    }
    var g := Grammar(arena.root, builder.nonterminals, builder.terminals, builder.productions);
    ghost var b := builder.Value();
    LoweredInRange(b, g);
    forall meaning: Meaning
      ensures Solves(arena, quote, meaning, CfgFor(meaning, g)) && Least(arena, quote, meaning, CfgFor(meaning, g))
    {
      LoweredMeaning(b, g, meaning);
      LoweredSolves(CfgFor(meaning, g), b, arena, quote, meaning);
    }
    r := Ok(g);
  }

  // The languages of the schema nonterminals satisfy every schema exactly.
  ghost predicate Solves(arena: Arena, quote: Quoting, meaning: Meaning, c: Cfg) {
    forall k: nat, w: Word :: k < |arena.kinds| ==>
      (Generates(c, k, w) <==> Admits(meaning, quote, Generated(c), arena.kinds[k], w))
  }

  // They are contained in every family that satisfies the schemas.
  ghost predicate Least(arena: Arena, quote: Quoting, meaning: Meaning, c: Cfg) {
    forall strings: Strings, k: nat, w: Word ::
      Satisfies(arena, meaning, quote, strings) && k < |arena.kinds| && Generates(c, k, w) ==> w in strings(k)
  }

  lemma LoweredSolves(c: Cfg, b: Built, arena: Arena, quote: Quoting, meaning: Meaning)
    requires MeaningFor(c, b, meaning) && AllLowered(b, arena, quote, |arena.kinds|) && ArenaKnown(arena)
    ensures Solves(arena, quote, meaning, c) && Least(arena, quote, meaning, c)
  {
    hide MeaningFor, AllLowered, ArenaKnown, Admits, Satisfies;
    forall k: nat, w: Word | k < |arena.kinds|
      ensures Generates(c, k, w) <==> Admits(meaning, quote, Generated(c), arena.kinds[k], w)
    {
      LoweringExact(c, b, arena, meaning, quote, k, w);
    }
    forall strings: Strings, k: nat, w: Word | Satisfies(arena, meaning, quote, strings) && k < |arena.kinds|
      && Generates(c, k, w)
      ensures w in strings(k)
    {
      var t: Tree :| TreeFor(c, t, Nonterminal(k)) && Yield(t) == w;
      LoweringLeast(c, b, arena, meaning, quote, strings, k, t);
    }
  }

  lemma RootKnown(arena: Arena)
    requires ArenaKnown(arena)
    ensures arena.root < |arena.kinds|
  {
  }

  lemma NothingLowered(arena: Arena, quote: Quoting)
    ensures AllLowered(Built(|arena.kinds|, [], []), arena, quote, 0)
  {
  }

  lemma LoweredInRange(b: Built, g: Grammar)
    requires BuiltInRange(b) && g == Grammar(g.start, b.nonterminals, b.terminals, b.productions)
    requires g.start < g.nonterminals
    ensures InRange(g)
  {
  }

  lemma LoweredMeaning(b: Built, g: Grammar, meaning: Meaning)
    requires g == Grammar(g.start, b.nonterminals, b.terminals, b.productions)
    ensures MeaningFor(CfgFor(meaning, g), b, meaning)
  {
  }
}
