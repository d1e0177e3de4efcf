/**
 Lowering a closed object schema: for each property two nonterminals, before and after the first member has been
 written.  They derive exactly the members in key order, the required ones among them.
 */
module ObjectLowering {
  import opened Grammars
  import opened CompileErrors
  import opened SchemaGrammars
  import opened JsonSchemas
  import opened LoweredRules
  import opened ArrayLowering

  type Positions = seq<(nat, nat)>

  function At(members: Positions, i: nat, written: bool): nat
    requires i < |members|
  {
    if written then members[i].1 else members[i].0
  }

  // ---------- The rules ----------

  // Writing one member: a comma first, unless it is the first one.
  ghost predicate MemberRule(b: Built, key: Word, value: nat, next: nat, written: bool, rule: seq<Symbol>) {
    var comma := if written then 1 else 0;
    && |rule| == comma + 4 && (written ==> IsLiteral(b.terminals, rule[0], COMMA))
    && IsLiteral(b.terminals, rule[comma], key) && IsLiteral(b.terminals, rule[comma + 1], COLON)
    && rule[comma + 2] == Nonterminal(value) && rule[comma + 3] == Nonterminal(next)
  }

  ghost predicate EntryRules(b: Built, quote: Quoting, fields: ObjectConstraints, members: Positions, i: nat,
      written: bool)
    requires i < |fields.properties| < |members|
  {
    var (name, value) := fields.properties[i];
    var rules := RulesOf(b.productions, At(members, i, written));
    var skips: seq<seq<Symbol>> := if name in fields.required then [] else [[Nonterminal(At(members, i + 1, written))]];
    && |rules| == |skips| + 1 && rules[..|skips|] == skips
    && MemberRule(b, quote(name), value, At(members, i + 1, true), written, rules[|skips|])
  }

  ghost predicate EndRules(b: Built, members: Positions, i: nat, written: bool)
    requires i < |members|
  {
    RulesOf(b.productions, At(members, i, written)) == [[]]
  }

  ghost predicate MembersFor(b: Built, quote: Quoting, fields: ObjectConstraints, members: Positions) {
    && |members| == |fields.properties| + 1
    && (forall i: nat, written: bool :: i < |fields.properties| ==> EntryRules(b, quote, fields, members, i, written))
    && (forall written: bool :: EndRules(b, members, |fields.properties|, written))
  }

  // The position nonterminals come after the first `count`, those of the schemas.
  ghost predicate PositionsForObject(b: Built, quote: Quoting, count: nat, lhs: nat, fields: ObjectConstraints,
      members: Positions)
  {
    && MembersFor(b, quote, fields, members) && BracketRule(b, lhs, OPEN_OBJECT, members[0].0, CLOSE_OBJECT)
    && forall k: nat, u: bool :: k < |members| ==> count <= At(members, k, u) < b.nonterminals
  }

  ghost predicate ObjectLowered(b: Built, quote: Quoting, count: nat, lhs: nat, fields: ObjectConstraints) {
    fields.additional == Forbidden &&
    if !RequiredKnown(fields) then RulesOf(b.productions, lhs) == []
    else exists members: Positions :: PositionsForObject(b, quote, count, lhs, fields, members)
  }

  // ---------- What the positions derive ----------

  // What is written from property `i` on.
  function WrittenText(properties: seq<(string, nat)>, quote: Quoting, written: bool, values: seq<Option<Word>>): Word
    requires |properties| == |values|
  {
    if written then JoinTail(Members(properties, quote, values)) else Join(Members(properties, quote, values))
  }

  lemma WrittenStep(properties: seq<(string, nat)>, quote: Quoting, written: bool, values: seq<Option<Word>>)
    requires |properties| == |values| && properties != []
    ensures WrittenText(properties, quote, written, values) ==
              if values[0].None? then WrittenText(properties[1..], quote, written, values[1..])
              else
                (if written then COMMA else []) + quote(properties[0].0) + COLON + values[0].value
                + WrittenText(properties[1..], quote, true, values[1..])
  {
    var rest := Members(properties[1..], quote, values[1..]);
    if values[0].Some? {
      var member := quote(properties[0].0) + COLON + values[0].value;
      assert ([member] + rest)[1..] == rest;
      if written {
        assert COMMA + member == COMMA + quote(properties[0].0) + COLON + values[0].value;
      } else {
        assert [] + quote(properties[0].0) + COLON + values[0].value == member;
      }
    }
  }

  lemma FitsSize(strings: Strings, properties: seq<(string, nat)>, required: set<string>, values: seq<Option<Word>>)
    requires ValuesFit(strings, properties, required, values)
    ensures |properties| == |values|
  {
  }

  lemma FitsStep(strings: Strings, properties: seq<(string, nat)>, required: set<string>, first: Option<Word>,
      rest: seq<Option<Word>>)
    requires properties != [] && ValuesFit(strings, properties[1..], required, rest)
    requires first.Some? ==> first.value in strings(properties[0].1)
    requires properties[0].0 in required ==> first.Some?
    ensures ValuesFit(strings, properties, required, [first] + rest)
  {
    var values := [first] + rest;
    forall i: nat | i < |values| && values[i].Some? ensures values[i].value in strings(properties[i].1) {
      if i > 0 {
        assert values[i] == rest[i - 1] && properties[i] == properties[1..][i - 1];
      }
    }
    forall i: nat | i < |values| && properties[i].0 in required ensures values[i].Some? {
      if i > 0 {
        assert values[i] == rest[i - 1] && properties[i] == properties[1..][i - 1];
      }
    }
  }

  lemma FitsTail(strings: Strings, properties: seq<(string, nat)>, required: set<string>, values: seq<Option<Word>>)
    requires properties != [] && ValuesFit(strings, properties, required, values)
    ensures ValuesFit(strings, properties[1..], required, values[1..])
    ensures values[0].Some? ==> values[0].value in strings(properties[0].1)
    ensures properties[0].0 in required ==> values[0].Some?
  {
    forall i: nat | i < |values[1..]| && values[1..][i].Some?
      ensures values[1..][i].value in strings(properties[1..][i].1)
    {
      assert values[1..][i] == values[i + 1] && properties[1..][i] == properties[i + 1];
    }
    forall i: nat | i < |values[1..]| && properties[1..][i].0 in required ensures values[1..][i].Some? {
      assert values[1..][i] == values[i + 1] && properties[1..][i] == properties[i + 1];
    }
  }

  lemma {:induction false} MembersForward(c: Cfg, b: Built, quote: Quoting, fields: ObjectConstraints,
      members: Positions, i: nat, written: bool, t: Tree, bound: Forest)
    returns (values: seq<Option<Word>>)
    requires MembersFor(b, quote, fields, members) && Represents(c, b) && i < |members|
    requires TreeFor(c, t, Nonterminal(At(members, i, written))) && t < bound
    ensures ValuesFit(Below(c, bound), fields.properties[i..], fields.required, values)
    ensures Yield(t) == WrittenText(fields.properties[i..], quote, written, values)
    decreases |members| - i
  {
    var properties := fields.properties[i..];
    var rule := TreeByRule(c, t, At(members, i, written));
    if i == |fields.properties| {
      assert EndRules(b, members, i, written);
      values := [];
      assert t.kids == Nil;
    } else {
      assert EntryRules(b, quote, fields, members, i, written);
      assert properties[1..] == fields.properties[i + 1..] && properties[0] == fields.properties[i];
      if properties[0].0 !in fields.required && rule == [Nonterminal(At(members, i + 1, written))] {
        SingleForest(c, t.kids, rule[0]);
        var rest := MembersForward(c, b, quote, fields, members, i + 1, written, t.kids.head, bound);
        values := [None] + rest;
        FitsStep(Below(c, bound), properties, fields.required, None, rest);
        WrittenStep(properties, quote, written, values);
        assert values[1..] == rest;
      } else {
        var value, next :=
          MemberParts(c, b, quote(properties[0].0), properties[0].1, At(members, i + 1, true), written, rule, t.kids);
        var rest := MembersForward(c, b, quote, fields, members, i + 1, true, next, bound);
        values := [Some(Yield(value))] + rest;
        FitsStep(Below(c, bound), properties, fields.required, Some(Yield(value)), rest);
        WrittenStep(properties, quote, written, values);
        assert values[1..] == rest;
      }
    }
  }

  lemma LiteralFirst(c: Cfg, b: Built, f: Forest, alpha: seq<Symbol>, bytes: Word)
    requires Represents(c, b) && alpha != [] && IsLiteral(b.terminals, alpha[0], bytes) && ForestFor(c, f, alpha)
    ensures f.Cons? && ForestFor(c, f.tail, alpha[1..]) && ForestYield(f) == bytes + ForestYield(f.tail)
  {
    LiteralLeaf(c, b, f.head, alpha[0], bytes);
  }

  lemma BodyParts(c: Cfg, b: Built, key: Word, value: nat, next: nat, alpha: seq<Symbol>, f: Forest)
      returns (t: Tree, rest: Tree)
    requires Represents(c, b) && MemberRule(b, key, value, next, false, alpha) && ForestFor(c, f, alpha)
    ensures TreeFor(c, t, Nonterminal(value)) && TreeFor(c, rest, Nonterminal(next)) && t < f && rest < f
    ensures ForestYield(f) == key + COLON + Yield(t) + Yield(rest)
  {
    hide TreeFor, ForestFor, Represents, ForestYield;
    LiteralFirst(c, b, f, alpha, key);
    LiteralFirst(c, b, f.tail, alpha[1..], COLON);
    assert alpha[1..][1..] == alpha[2..];
    t, rest := TwoTrees(c, f.tail.tail, alpha[2..]);
    assert key + (COLON + (Yield(t) + Yield(rest))) == key + COLON + Yield(t) + Yield(rest);
  }

  lemma MemberParts(c: Cfg, b: Built, key: Word, value: nat, next: nat, written: bool, rule: seq<Symbol>, kids: Forest)
      returns (t: Tree, rest: Tree)
    requires Represents(c, b) && MemberRule(b, key, value, next, written, rule) && ForestFor(c, kids, rule)
    ensures TreeFor(c, t, Nonterminal(value)) && TreeFor(c, rest, Nonterminal(next)) && t < kids && rest < kids
    ensures ForestYield(kids) == (if written then COMMA else []) + key + COLON + Yield(t) + Yield(rest)
  {
    hide TreeFor, ForestFor, Represents, ForestYield;
    if written {
      LiteralFirst(c, b, kids, rule, COMMA);
      t, rest := BodyParts(c, b, key, value, next, rule[1..], kids.tail);
      assert COMMA + (key + COLON + Yield(t) + Yield(rest)) == COMMA + key + COLON + Yield(t) + Yield(rest);
    } else {
      t, rest := BodyParts(c, b, key, value, next, rule, kids);
      assert [] + key == key;
    }
  }

  lemma MemberDerives(c: Cfg, b: Built, key: Word, value: nat, next: nat, written: bool, rule: seq<Symbol>, u: Word,
      v: Word)
    requires Represents(c, b) && MemberRule(b, key, value, next, written, rule) && Generates(c, value, u)
    requires Generates(c, next, v)
    ensures Derives(c, rule, (if written then COMMA else []) + key + COLON + u + v)
  {
    var comma := if written then 1 else 0;
    LiteralDerives(c, b, rule[comma], key);
    LiteralDerives(c, b, rule[comma + 1], COLON);
    DerivesNonterminal(c, value, u);
    DerivesNonterminal(c, next, v);
    DerivesConcat(c, [rule[comma]], key, [rule[comma + 1]], COLON);
    DerivesConcat(c, [rule[comma]] + [rule[comma + 1]], key + COLON, [rule[comma + 2]], u);
    DerivesConcat(c, [rule[comma]] + [rule[comma + 1]] + [rule[comma + 2]], key + COLON + u, [rule[comma + 3]], v);
    var body := [rule[comma]] + [rule[comma + 1]] + [rule[comma + 2]] + [rule[comma + 3]];
    if written {
      LiteralDerives(c, b, rule[0], COMMA);
      DerivesConcat(c, [rule[0]], COMMA, body, key + COLON + u + v);
      assert [rule[0]] + body == rule;
      assert COMMA + (key + COLON + u + v) == COMMA + key + COLON + u + v;
    } else {
      assert body == rule;
      assert [] + key == key;
    }
  }

  lemma NothingWritten(strings: Strings, properties: seq<(string, nat)>, required: set<string>, quote: Quoting,
      written: bool, values: seq<Option<Word>>)
    requires properties == [] && ValuesFit(strings, properties, required, values)
    ensures |values| == 0 && WrittenText(properties, quote, written, values) == []
  {
  }

  lemma GeneratedIs(c: Cfg, k: nat, w: Word)
    ensures w in Generated(c)(k) <==> Generates(c, k, w)
  {
  }

  lemma {:induction false} MembersBack(c: Cfg, b: Built, quote: Quoting, fields: ObjectConstraints, members: Positions,
      i: nat, written: bool, values: seq<Option<Word>>)
    requires MembersFor(b, quote, fields, members) && Represents(c, b) && i < |members|
    requires ValuesFit(Generated(c), fields.properties[i..], fields.required, values)
    ensures Generates(c, At(members, i, written), WrittenText(fields.properties[i..], quote, written, values))
    decreases |members| - i
  {
    hide Members, ValuesFit, Generates, Derives, Represents, MemberRule, WrittenText, Generated;
    RepresentsRules(c, b);
    var properties := fields.properties[i..];
    var a := At(members, i, written);
    var rules := RulesOf(b.productions, a);
    if i == |fields.properties| {
      assert EndRules(b, members, i, written);
      assert rules[0] == [];
      DerivesEmpty(c);
      RuleGenerates(c, a, [], []);
      NothingWritten(Generated(c), properties, fields.required, quote, written, values);
    } else {
      assert EntryRules(b, quote, fields, members, i, written);
      assert properties[1..] == fields.properties[i + 1..] && properties[0] == fields.properties[i];
      FitsSize(Generated(c), properties, fields.required, values);
      FitsTail(Generated(c), properties, fields.required, values);
      WrittenStep(properties, quote, written, values);
      if values[0].None? {
        MembersBack(c, b, quote, fields, members, i + 1, written, values[1..]);
        var text := WrittenText(properties[1..], quote, written, values[1..]);
        DerivesNonterminal(c, At(members, i + 1, written), text);
        assert rules[0] == [Nonterminal(At(members, i + 1, written))];
        RuleGenerates(c, a, rules[0], text);
      } else {
        MembersBack(c, b, quote, fields, members, i + 1, true, values[1..]);
        var rule := rules[|rules| - 1];
        var text := WrittenText(properties[1..], quote, true, values[1..]);
        GeneratedIs(c, properties[0].1, values[0].value);
        MemberDerives(c, b, quote(properties[0].0), properties[0].1, At(members, i + 1, true), written, rule,
          values[0].value, text);
        RuleGenerates(c, a, rule, WrittenText(properties, quote, written, values));
      }
    }
  }

  // A tree of the object's nonterminal is an object the keywords admit, of smaller trees.
  lemma ObjectTree(c: Cfg, b: Built, quote: Quoting, count: nat, lhs: nat, fields: ObjectConstraints, t: Tree)
      returns (values: seq<Option<Word>>)
    requires Represents(c, b) && ObjectLowered(b, quote, count, lhs, fields) && TreeFor(c, t, Nonterminal(lhs))
    ensures t.Node? && ObjectOf(Below(c, t.kids), quote, fields, values, Yield(t))
  {
    hide Below, EntryRules, EndRules, ValuesFit;
    var rule := TreeByRule(c, t, lhs);
    var members: Positions :| PositionsForObject(b, quote, count, lhs, fields, members);
    var u := BracketTree(c, b, lhs, OPEN_OBJECT, members[0].0, CLOSE_OBJECT, t);
    values := MembersForward(c, b, quote, fields, members, 0, false, u, t.kids);
    assert fields.properties[0..] == fields.properties;
    FitsSize(Below(c, t.kids), fields.properties, fields.required, values);
  }

  // An object the keywords admit is derived.
  lemma ObjectWord(c: Cfg, b: Built, quote: Quoting, count: nat, lhs: nat, fields: ObjectConstraints,
      values: seq<Option<Word>>, w: Word)
    requires Represents(c, b) && ObjectLowered(b, quote, count, lhs, fields)
    requires ObjectOf(Generated(c), quote, fields, values, w)
    ensures Generates(c, lhs, w)
  {
    hide Generated, EntryRules, EndRules;
    var members: Positions :| PositionsForObject(b, quote, count, lhs, fields, members);
    assert fields.properties[0..] == fields.properties;
    MembersBack(c, b, quote, fields, members, 0, false, values);
    BracketWord(c, b, lhs, OPEN_OBJECT, members[0].0, CLOSE_OBJECT, Join(Members(fields.properties, quote, values)));
  }

  // ---------- The lowering ----------

  // Two nonterminals for each position.
  method AddMembers(builder: GrammarBuilder, count: nat) returns (r: Result<Positions>)
    requires builder.Valid()
    modifies builder
    ensures r.Err? ==> r.error.ResourceLimitExceeded?
    ensures Costs(builder.limits, old(builder.Value()), builder.Value(), r, 2 * count)
    ensures r.Ok? ==> builder.Valid() && Fresh(r.value, old(builder.nonterminals), count)
    ensures r.Ok? ==> builder.Value() == old(builder.Value()).(nonterminals := old(builder.nonterminals) + 2 * count)
  {
    var members: Positions := [];
    for i := 0 to count
      invariant builder.Valid() && Fresh(members, old(builder.nonterminals), i)
      invariant builder.Value() == old(builder.Value()).(nonterminals := old(builder.nonterminals) + 2 * i)
      invariant Weight(builder.Value()) <= Weight(old(builder.Value())) + 2 * i
    {
      var absent := builder.AddNonterminal();
      if absent.Err? {
        return Err(absent.error);
      }
      var present := builder.AddNonterminal();
      if present.Err? {
        return Err(present.error);
      }
      members := members + [(absent.value, present.value)];
    }
    return Ok(members);
  }

  ghost predicate Fresh(members: Positions, start: nat, count: nat) {
    |members| == count && forall i: nat :: i < count ==> members[i] == (start + 2 * i, start + 2 * i + 1)
  }

  lemma FreshDistinct(members: Positions, start: nat, count: nat, i: nat, u: bool, j: nat, v: bool)
    requires Fresh(members, start, count) && i < count && j < count
    ensures At(members, i, u) == At(members, j, v) <==> i == j && u == v
    ensures start <= At(members, i, u) < start + 2 * count
  {
  }

  // Only terminals are new.
  ghost predicate TerminalsOnly(before: Built, after: Built) {
    after.nonterminals == before.nonterminals && before.terminals <= after.terminals
      && after.productions == before.productions
  }

  // The right-hand side that writes one member.
  method MemberSymbols(builder: GrammarBuilder, place: nat, key: Word, value: nat, next: nat, written: bool)
      returns (r: Result<seq<Symbol>>)
    requires builder.Valid() && value < builder.nonterminals && next < builder.nonterminals && key != []
    modifies builder
    ensures r.Err? ==> r.error.ResourceLimitExceeded?
    ensures Costs(builder.limits, old(builder.Value()), builder.Value(), r, 3)
    ensures r.Ok? ==> builder.Valid() && TerminalsOnly(old(builder.Value()), builder.Value()) && |r.value| <= 5
    ensures r.Ok? ==> forall lhs: nat :: lhs < builder.nonterminals ==>
                        ProductionInRange(Production(lhs, r.value), builder.nonterminals, |builder.terminals|)
    ensures r.Ok? ==> MemberRule(builder.Value(), key, value, next, written, r.value)
  {
    hide GrammarOver, Weight, SymbolAnswer, GrammarBuilder.Valid;
    var rhs: seq<Symbol> := [];
    if written {
      var comma := builder.AddLiteral(COMMA, place);
      if comma.Err? {
        return Err(comma.error);
      }
      rhs := [comma.value];
    }
    var name := builder.AddLiteral(key, place);
    if name.Err? {
      return Err(name.error);
    }
    var colon := builder.AddLiteral(COLON, place);
    if colon.Err? {
      return Err(colon.error);
    }
    return Ok(rhs + [name.value, colon.value, Nonterminal(value), Nonterminal(next)]);
  }

  lemma MemberRuleKept(before: Built, after: Built, key: Word, value: nat, next: nat, written: bool, rule: seq<Symbol>)
    requires MemberRule(before, key, value, next, written, rule) && before.terminals <= after.terminals
    ensures MemberRule(after, key, value, next, written, rule)
  {
  }

  // The rules of one position, with a member written or not.
  method LowerEntry(builder: GrammarBuilder, quote: Quoting, place: nat, fields: ObjectConstraints, members: Positions,
      i: nat, written: bool)
    returns (r: Result<()>)
    requires builder.Valid() && i < |fields.properties| < |members| && FieldsKnown(builder.nonterminals, fields)
    requires QuotesSomething(quote)
    requires forall k: nat, u: bool :: k < |members| ==> At(members, k, u) < builder.nonterminals
    requires RulesOf(builder.productions, At(members, i, written)) == []
    modifies builder
    ensures r.Err? ==> r.error.ResourceLimitExceeded?
    ensures Costs(builder.limits, old(builder.Value()), builder.Value(), r, 11)
    ensures r.Ok? ==> builder.Valid() && Touches(old(builder.Value()), builder.Value(), At(members, i, written))
                      && EntryRules(builder.Value(), quote, fields, members, i, written)
  {
    hide RulesOf, GrammarOver, Weight, ProductionAnswer, SymbolAnswer, MemberRule, GrammarBuilder.Valid;
    var name, value := fields.properties[i].0, fields.properties[i].1;
    assert fields.properties[i] in fields.properties;
    var current, next := At(members, i, written), At(members, i + 1, true);
    if name !in fields.required {
      var skip := builder.AddProduction(current, [Nonterminal(At(members, i + 1, written))]);
      if skip.Err? {
        return Err(skip.error);
      }
    }
    var rhs := MemberSymbols(builder, place, quote(name), value, next, written);
    if rhs.Err? {
      return Err(rhs.error);
    }
    ghost var now := builder.Value();
    var added := builder.AddProduction(current, rhs.value);
    if added.Err? {
      return Err(added.error);
    }
    MemberRuleKept(now, builder.Value(), quote(name), value, next, written, rhs.value);
    return Ok(());
  }

  // ---------- Positions one after the other ----------

  // How many of the position nonterminals have their rules, in the order they are written.
  ghost predicate Done(b: Built, quote: Quoting, fields: ObjectConstraints, members: Positions, k: nat, u: bool)
    requires k < |members| == |fields.properties| + 1
  {
    if k == |fields.properties| then EndRules(b, members, k, u) else EntryRules(b, quote, fields, members, k, u)
  }

  // Position `k` with flag `u` comes before step `step`.
  predicate Before(k: nat, u: bool, n: nat, step: nat) {
    (if k == n then 0 else 2 + 2 * k) + (if u then 1 else 0) < step
  }

  ghost predicate LoweringMembers(b: Built, quote: Quoting, fields: ObjectConstraints, members: Positions, start: nat,
      lhs: nat, step: nat)
  {
    && Fresh(members, start, |fields.properties| + 1) && b.nonterminals == start + 2 * |members| && lhs < start
    && (forall k: nat, u: bool :: k < |members| ==>
          if Before(k, u, |fields.properties|, step) then Done(b, quote, fields, members, k, u)
            else RulesOf(b.productions, At(members, k, u)) == [])
    && RulesOf(b.productions, lhs) == []
  }

  lemma DoneKept(before: Built, after: Built, quote: Quoting, fields: ObjectConstraints, members: Positions, k: nat,
      u: bool)
    requires k < |members| == |fields.properties| + 1 && Done(before, quote, fields, members, k, u)
    requires before.terminals <= after.terminals
    requires RulesOf(after.productions, At(members, k, u)) == RulesOf(before.productions, At(members, k, u))
    ensures Done(after, quote, fields, members, k, u)
  {
  }

  lemma MemberDone(before: Built, after: Built, quote: Quoting, fields: ObjectConstraints, members: Positions,
      start: nat, lhs: nat, step: nat, i: nat, v: bool)
    requires LoweringMembers(before, quote, fields, members, start, lhs, step) && i < |members|
    requires Touches(before, after, At(members, i, v)) && Done(after, quote, fields, members, i, v)
    requires step == (if i == |fields.properties| then 0 else 2 + 2 * i) + if v then 1 else 0
    ensures LoweringMembers(after, quote, fields, members, start, lhs, step + 1)
  {
    hide RulesOf, Done, Fresh;
    FreshSize(members, start, |fields.properties| + 1);
    FreshDistinct(members, start, |fields.properties| + 1, i, v, i, v);
    forall k: nat, u: bool | k < |members|
      ensures if Before(k, u, |fields.properties|, step + 1) then Done(after, quote, fields, members, k, u)
              else RulesOf(after.productions, At(members, k, u)) == []
    {
      FreshDistinct(members, start, |fields.properties| + 1, k, u, i, v);
      if Before(k, u, |fields.properties|, step) {
        DoneKept(before, after, quote, fields, members, k, u);
      }
    }
  }

  lemma FreshSize(members: Positions, start: nat, count: nat)
    requires Fresh(members, start, count)
    ensures |members| == count
  {
  }

  lemma MembersStart(before: Built, now: Built, quote: Quoting, fields: ObjectConstraints, members: Positions, lhs: nat)
    requires BuiltInRange(before) && lhs < before.nonterminals && RulesOf(before.productions, lhs) == []
    requires Fresh(members, before.nonterminals, |fields.properties| + 1)
    requires now == before.(nonterminals := before.nonterminals + 2 * |members|)
    ensures LoweringMembers(now, quote, fields, members, before.nonterminals, lhs, 0) && Grown(before, now, lhs)
  {
    forall k: nat, u: bool | k < |members| ensures RulesOf(now.productions, At(members, k, u)) == [] {
      FreshDistinct(members, before.nonterminals, |members|, k, u, k, u);
      NoRulesYet(before, At(members, k, u));
    }
  }

  lemma MembersReady(b: Built, quote: Quoting, fields: ObjectConstraints, members: Positions, start: nat, lhs: nat,
      step: nat, i: nat, v: bool)
    requires LoweringMembers(b, quote, fields, members, start, lhs, step) && i < |members|
    requires step == (if i == |fields.properties| then 0 else 2 + 2 * i) + if v then 1 else 0
    ensures RulesOf(b.productions, At(members, i, v)) == [] && |members| == |fields.properties| + 1
    ensures forall k: nat, u: bool :: k < |members| ==> start <= At(members, k, u) < b.nonterminals
  {
    forall k: nat, u: bool | k < |members| ensures start <= At(members, k, u) < b.nonterminals {
      FreshDistinct(members, start, |members|, k, u, k, u);
    }
    assert !Before(i, v, |fields.properties|, step);
  }

  // The empty rules of the last position.
  method LowerEnd(builder: GrammarBuilder, ghost quote: Quoting, fields: ObjectConstraints, members: Positions,
      ghost start: nat, ghost lhs: nat, written: bool)
    returns (r: Result<()>)
    requires builder.Valid()
    requires LoweringMembers(builder.Value(), quote, fields, members, start, lhs, if written then 1 else 0)
    modifies builder
    ensures r.Err? ==> r.error.ResourceLimitExceeded?
    ensures Costs(builder.limits, old(builder.Value()), builder.Value(), r, 1)
    ensures r.Ok? ==>
            builder.Valid()
            && LoweringMembers(builder.Value(), quote, fields, members, start, lhs, if written then 2 else 1)
    ensures r.Ok? ==> forall before :: Grown(before, old(builder.Value()), lhs) && before.nonterminals == start ==>
                        Grown(before, builder.Value(), lhs)
  {
    hide RulesOf, GrammarOver, Weight, ProductionAnswer, SymbolAnswer, EntryRules, GrammarBuilder.Valid;
    var n := |fields.properties|;
    ghost var now := builder.Value();
    MembersReady(now, quote, fields, members, start, lhs, if written then 1 else 0, n, written);
    var end := builder.AddProduction(At(members, n, written), []);
    if end.Err? {
      return Err(end.error);
    }
    MemberDone(now, builder.Value(), quote, fields, members, start, lhs, if written then 1 else 0, n, written);
    return Ok(());
  }

  method LowerMember(builder: GrammarBuilder, quote: Quoting, place: nat, fields: ObjectConstraints,
      members: Positions, ghost start: nat, ghost lhs: nat, i: nat, written: bool)
    returns (r: Result<()>)
    requires builder.Valid() && i < |fields.properties| && FieldsKnown(builder.nonterminals, fields)
    requires QuotesSomething(quote)
    requires LoweringMembers(builder.Value(), quote, fields, members, start, lhs, 2 + 2 * i + if written then 1 else 0)
    modifies builder
    ensures r.Err? ==> r.error.ResourceLimitExceeded?
    ensures Costs(builder.limits, old(builder.Value()), builder.Value(), r, 11)
    ensures r.Ok? ==> builder.Valid() && builder.nonterminals == old(builder.nonterminals)
    ensures r.Ok? ==>
            LoweringMembers(builder.Value(), quote, fields, members, start, lhs, 3 + 2 * i + if written then 1 else 0)
    ensures r.Ok? ==> forall before :: Grown(before, old(builder.Value()), lhs) && before.nonterminals == start ==>
                        Grown(before, builder.Value(), lhs)
  {
    hide RulesOf, GrammarOver, Weight, ProductionAnswer, SymbolAnswer, EntryRules, GrammarBuilder.Valid;
    ghost var now := builder.Value();
    ghost var step := 2 + 2 * i + if written then 1 else 0;
    MembersReady(now, quote, fields, members, start, lhs, step, i, written);
    r := LowerEntry(builder, quote, place, fields, members, i, written);
    if r.Ok? {
      MemberDone(now, builder.Value(), quote, fields, members, start, lhs, step, i, written);
    }
  }

  // What an object adds at most: for each member two nonterminals, two rules for each and their literals, for the end
  // two more with an empty rule each, and the brackets.
  function ObjectCost(fields: ObjectConstraints): nat {
    24 * |fields.properties| + 10
  }

  method LowerObject(builder: GrammarBuilder, quote: Quoting, ghost count: nat, lhs: nat, place: nat,
      fields: ObjectConstraints) returns (r: Result<()>)
    requires builder.Valid() && lhs < count <= builder.nonterminals && FieldsKnown(builder.nonterminals, fields)
    requires QuotesSomething(quote)
    requires RulesOf(builder.productions, lhs) == []
    modifies builder
    ensures Costs(builder.limits, old(builder.Value()), builder.Value(), r, ObjectCost(fields))
    ensures if fields.additional != Forbidden then r == Err(UnsupportedCombination(OpenObject))
            else r.Err? ==> r.error.ResourceLimitExceeded?
    ensures r.Ok? ==> builder.Valid() && Grown(old(builder.Value()), builder.Value(), lhs)
                      && ObjectLowered(builder.Value(), quote, count, lhs, fields)
  {
    hide RulesOf, EntryRules, EndRules, LoweringMembers, GrammarOver, Weight, ProductionAnswer, SymbolAnswer;
    if fields.additional != Forbidden {
      return Err(UnsupportedCombination(OpenObject));
    }
    if !RequiredKnown(fields) {
      return Ok(());
    }
    ghost var before := builder.Value();
    var n := |fields.properties|;
    var added := AddMembers(builder, n + 1);
    if added.Err? {
      return Err(added.error);
    }
    var members := added.value;
    ghost var start := before.nonterminals;
    MembersStart(before, builder.Value(), quote, fields, members, lhs);
    r := LowerEnd(builder, quote, fields, members, start, lhs, false);
    if r.Err? {
      return r;
    }
    r := LowerEnd(builder, quote, fields, members, start, lhs, true);
    if r.Err? {
      return r;
    }
    MembersSize(builder.Value(), quote, fields, members, start, lhs, 2);
    for i := 0 to n
      invariant builder.Valid() && builder.nonterminals >= before.nonterminals
      invariant LoweringMembers(builder.Value(), quote, fields, members, start, lhs, 2 + 2 * i)
      invariant Grown(before, builder.Value(), lhs)
      invariant Weight(builder.Value()) <= Weight(before) + 2 * n + 4 + 22 * i
    {
      r := LowerMember(builder, quote, place, fields, members, start, lhs, i, false);
      if r.Err? {
        return r;
      }
      r := LowerMember(builder, quote, place, fields, members, start, lhs, i, true);
      if r.Err? {
        return r;
      }
    }
    ghost var now := builder.Value();
    MembersSize(now, quote, fields, members, start, lhs, 2 + 2 * n);
    r := AddBrackets(builder, lhs, place, OPEN_OBJECT, members[0].0, CLOSE_OBJECT);
    if r.Ok? {
      AllDone(now, builder.Value(), quote, fields, members, start, lhs);
      TouchesGrown(before, now, builder.Value(), lhs, lhs);
      assert PositionsForObject(builder.Value(), quote, count, lhs, fields, members);
    }
  }

  lemma MembersSize(b: Built, quote: Quoting, fields: ObjectConstraints, members: Positions, start: nat, lhs: nat,
      step: nat)
    requires LoweringMembers(b, quote, fields, members, start, lhs, step)
    ensures |members| == |fields.properties| + 1 && members[0].0 == start && b.nonterminals >= start + 2
    ensures RulesOf(b.productions, lhs) == []
  {
  }

  lemma AllDone(before: Built, after: Built, quote: Quoting, fields: ObjectConstraints, members: Positions, start: nat,
      lhs: nat)
    requires LoweringMembers(before, quote, fields, members, start, lhs, 2 + 2 * |fields.properties|)
    requires Touches(before, after, lhs)
    ensures MembersFor(after, quote, fields, members)
    ensures forall k: nat, u: bool :: k < |members| ==> start <= At(members, k, u) < after.nonterminals
  {
    hide RulesOf, EntryRules, EndRules;
    forall k: nat, u: bool | k < |members| ensures start <= At(members, k, u) < after.nonterminals {
      FreshDistinct(members, start, |members|, k, u, k, u);
    }
    forall k: nat, u: bool | k < |members| ensures Done(after, quote, fields, members, k, u) {
      FreshDistinct(members, start, |members|, k, u, k, u);
      assert Before(k, u, |fields.properties|, 2 + 2 * |fields.properties|);
      DoneKept(before, after, quote, fields, members, k, u);
    }
    forall i: nat, written: bool | i < |fields.properties|
      ensures EntryRules(after, quote, fields, members, i, written)
    {
      assert Done(after, quote, fields, members, i, written);
    }
    forall written: bool ensures EndRules(after, members, |fields.properties|, written) {
      assert Done(after, quote, fields, members, |fields.properties|, written);
    }
  }

  // The rules of the object stay while others are added.
  lemma ObjectStays(before: Built, after: Built, quote: Quoting, count: nat, k: nat, fields: ObjectConstraints,
      lhs: nat)
    requires ObjectLowered(before, quote, count, k, fields) && Grown(before, after, lhs) && k != lhs && lhs < count
    requires k < count <= before.nonterminals
    ensures ObjectLowered(after, quote, count, k, fields)
  {
    hide RulesOf, EntryRules, EndRules;
    if RequiredKnown(fields) {
      var members: Positions :| PositionsForObject(before, quote, count, k, fields, members);
      forall i: nat, u: bool | i < |members| ensures Done(after, quote, fields, members, i, u) {
        DoneKept(before, after, quote, fields, members, i, u);
      }
      forall i: nat, written: bool | i < |fields.properties|
        ensures EntryRules(after, quote, fields, members, i, written)
      {
        assert Done(after, quote, fields, members, i, written);
      }
      forall written: bool ensures EndRules(after, members, |fields.properties|, written) {
        assert Done(after, quote, fields, members, |fields.properties|, written);
      }
      assert PositionsForObject(after, quote, count, k, fields, members);
    }
  }
}
