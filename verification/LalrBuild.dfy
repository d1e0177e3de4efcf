/**
 Building the LALR(1) table: FIRST, closure, the canonical collection, core merging, and the table with its
 conflicts, each by the loop that computes it.
 */
module LalrBuild {
  import opened Grammars
  import opened ResidualGrammars
  import opened CompileErrors
  import opened Lalr
  import opened LalrCollection
  import opened LalrConflicts
  import opened Counting
  import LalrAutomaton
  import LexicalSafety

  // ---------- FIRST ----------

  ghost predicate TerminalsBelow(first: seq<set<nat>>, t: nat) {
    forall i, x :: 0 <= i < |first| && x in first[i] ==> x < t
  }

  // How much FIRST can still grow.
  ghost function Missing(first: seq<set<nat>>, t: nat): int {
    if first == [] then 0 else t - |first[0]| + Missing(first[1..], t)
  }

  lemma {:induction false} MissingBounds(first: seq<set<nat>>, t: nat)
    requires TerminalsBelow(first, t)
    ensures Missing(first, t) >= 0
  {
    if first != [] {
      assert forall x <- first[0] :: x < t;
      LexicalSafety.RangeBounds(first[0], t);
      assert TerminalsBelow(first[1..], t);
      MissingBounds(first[1..], t);
    }
  }

  lemma {:induction false} MissingShrinks(first: seq<set<nat>>, i: nat, more: set<nat>, t: nat)
    requires i < |first| && first[i] < more
    ensures Missing(first[i := more], t) < Missing(first, t)
  {
    LexicalSafety.SmallerSet(first[i], more);
    if i == 0 {
      assert first[i := more][1..] == first[1..];
    } else {
      assert first[i := more][1..] == first[1..][i - 1 := more];
      MissingShrinks(first[1..], i - 1, more, t);
    }
  }

  lemma {:induction false} FirstOfMonotone(nullable: seq<bool>, a: seq<set<nat>>, b: seq<set<nat>>, tail: seq<Symbol>)
    requires TailKnown(nullable, a, tail) && Below(a, b)
    ensures TailKnown(nullable, b, tail) && FirstOf(nullable, a, tail) <= FirstOf(nullable, b, tail)
    decreases |tail|
  {
    if tail != [] && tail[0].Nonterminal? {
      assert tail[0] in tail && forall s <- tail[1..] :: s in tail;
      FirstOfMonotone(nullable, a, b, tail[1..]);
    }
  }

  // What position `i` of a right-hand side, behind a nullable prefix, contributes to FIRST of the whole.
  lemma {:induction false} FirstOfAt(nullable: seq<bool>, first: seq<set<nat>>, rhs: seq<Symbol>, i: nat)
    requires TailKnown(nullable, first, rhs) && i < |rhs| && AllNullable(nullable, rhs[..i])
    ensures match rhs[i]
            case Terminal(t) => t in FirstOf(nullable, first, rhs)
            case Nonterminal(n) => n < |first| && first[n] <= FirstOf(nullable, first, rhs)
    decreases i
  {
    assert rhs[i] in rhs && rhs[0] in rhs && forall s <- rhs[1..] :: s in rhs;
    if i > 0 {
      assert rhs[..i][1..] == rhs[1..][..i - 1] && rhs[..i][0] == rhs[0];
      FirstOfAt(nullable, first, rhs[1..], i - 1);
    }
  }

  lemma {:induction false} NullablePrefixGrows(nullable: seq<bool>, rhs: seq<Symbol>, i: nat)
    requires i < |rhs| && AllNullable(nullable, rhs[..i])
    requires rhs[i].Nonterminal? && rhs[i].id < |nullable| && nullable[rhs[i].id]
    ensures AllNullable(nullable, rhs[..i + 1])
    decreases i
  {
    if i == 0 {
      assert rhs[..1][1..] == [];
    } else {
      assert rhs[..i][1..] == rhs[1..][..i - 1] && rhs[..i][0] == rhs[0];
      assert rhs[..i + 1][1..] == rhs[1..][..i];
      NullablePrefixGrows(nullable, rhs[1..], i - 1);
    }
  }

  // A contribution of production `p` belongs to every closed FIRST.
  lemma ContributionLeast(g: ResidualGrammar, first: seq<set<nat>>, p: nat, i: nat, lhs: nat, more: set<nat>)
    requires FirstKnown(g, first) && p < |g.productions| && lhs == g.productions[p].lhs && lhs < |first|
    requires LeastSoFar(g, first) && i < |g.productions[p].rhs| && AllNullable(g.nullable, g.productions[p].rhs[..i])
    requires match g.productions[p].rhs[i]
             case Terminal(t) => more == first[lhs] + {t}
             case Nonterminal(n) => n < |first| && more == first[lhs] + first[n]
    ensures LeastSoFar(g, first[lhs := more])
  {
    var rhs := g.productions[p].rhs;
    assert AugmentedProductions(g)[p] == g.productions[p];
    RhsKnown(g, first, p, 0);
    assert rhs[0..] == rhs;
    forall f: seq<set<nat>> | FirstClosed(g, f) ensures Below(first[lhs := more], f) {
      assert Below(first, f) && FirstRule(g, f, p);
      RhsKnown(g, f, p, 0);
      FirstOfAt(g.nullable, f, rhs, i);
    }
  }

  lemma FirstRuleFrom(g: ResidualGrammar, first: seq<set<nat>>, p: nat)
    requires FirstKnown(g, first) && p < |g.productions| && TailKnown(g.nullable, first, g.productions[p].rhs)
    requires g.productions[p].lhs < |first|
    requires FirstOf(g.nullable, first, g.productions[p].rhs) <= first[g.productions[p].lhs]
    ensures FirstRule(g, first, p)
  {
  }

  lemma ProductionKnown(g: ResidualGrammar, first: seq<set<nat>>, p: nat, i: nat)
    requires FirstKnown(g, first) && p < |g.productions| && i <= |g.productions[p].rhs|
    ensures g.productions[p].lhs < |first| == |g.nullable|
    ensures TailKnown(g.nullable, first, g.productions[p].rhs[i..])
    ensures TailKnown(g.nullable, first, g.productions[p].rhs)
    ensures forall s <- g.productions[p].rhs :: SymbolInRange(s, g.nonterminals, |g.terminals|)
    ensures g.nonterminals == |first|
  {
    RhsKnown(g, first, p, i);
    RhsKnown(g, first, p, 0);
    assert AugmentedProductions(g)[p] == g.productions[p];
    assert g.productions[p].rhs[0..] == g.productions[p].rhs;
  }

  // FIRST grows at one nonterminal and stays within the terminals.
  lemma GrowFirst(g: ResidualGrammar, first: seq<set<nat>>, lhs: nat, more: set<nat>)
    requires FirstKnown(g, first) && TerminalsBelow(first, |g.terminals|) && lhs < |first| && first[lhs] < more
    requires forall x <- more :: x < |g.terminals|
    ensures FirstKnown(g, first[lhs := more]) && TerminalsBelow(first[lhs := more], |g.terminals|)
    ensures Missing(first[lhs := more], |g.terminals|) < Missing(first, |g.terminals|)
  {
    MissingShrinks(first, lhs, more, |g.terminals|);
  }

  // One production's contribution to FIRST of its left-hand side.
  method AddFirst(g: ResidualGrammar, first: seq<set<nat>>, p: nat) returns (grown: seq<set<nat>>, changed: bool)
    requires WellFormed(g) && FirstKnown(g, first) && p < |g.productions|
    requires TerminalsBelow(first, |g.terminals|) && LeastSoFar(g, first)
    ensures FirstKnown(g, grown) && TerminalsBelow(grown, |g.terminals|) && LeastSoFar(g, grown)
    ensures changed ==> Missing(grown, |g.terminals|) < Missing(first, |g.terminals|)
    ensures !changed ==> grown == first && FirstRule(g, first, p)
  {
    hide LeastSoFar, Missing, WellFormed, FirstRule, FirstKnown;
    grown, changed := first, false;
    var lhs, rhs := g.productions[p].lhs, g.productions[p].rhs;
    ProductionKnown(g, first, p, 0);
    assert rhs[0..] == rhs && rhs[..0] == [];
    var i := 0;
    var prefixNullable := true;
    while i < |rhs| && prefixNullable
      invariant 0 <= i <= |rhs| && FirstKnown(g, grown) && TerminalsBelow(grown, |g.terminals|)
      invariant |grown| == |first| && LeastSoFar(g, grown)
      invariant prefixNullable ==> AllNullable(g.nullable, rhs[..i])
      invariant changed ==> Missing(grown, |g.terminals|) < Missing(first, |g.terminals|)
      invariant !changed ==> grown == first
      invariant TailKnown(g.nullable, first, rhs[i..])
      invariant !changed ==>
                  FirstOf(g.nullable, first, rhs) <= first[lhs] +
                  if prefixNullable then FirstOf(g.nullable, first, rhs[i..]) else {}
    {
      ProductionKnown(g, first, p, i + 1);
      assert rhs[i..][1..] == rhs[i + 1..] && rhs[i..][0] == rhs[i] && rhs[i] in rhs;
      assert SymbolInRange(rhs[i], g.nonterminals, |g.terminals|);
      var more: set<nat>;
      match rhs[i] {
        case Terminal(t) =>
          more := grown[lhs] + {t};
          prefixNullable := false;
        case Nonterminal(n) =>
          more := grown[lhs] + grown[n];
          prefixNullable := g.nullable[n];
      }
      ContributionLeast(g, grown, p, i, lhs, more);
      if more != grown[lhs] {
        GrowFirst(g, grown, lhs, more);
        grown := grown[lhs := more];
        changed := true;
      }
      if prefixNullable {
        NullablePrefixGrows(g.nullable, rhs, i);
      }
      i := i + 1;
    }
    if !changed {
      assert rhs[|rhs|..] == [];
      FirstRuleFrom(g, first, p);
    }
  }

  // FIRST is the least solution of its rules.
  method ComputeFirst(g: ResidualGrammar) returns (first: seq<set<nat>>)
    requires WellFormed(g)
    ensures FirstClosed(g, first) && LeastSoFar(g, first)
  {
    first := seq(g.nonterminals, _ => {});
    var changed := true;
    while changed
      invariant FirstKnown(g, first) && TerminalsBelow(first, |g.terminals|) && LeastSoFar(g, first)
      invariant !changed ==> FirstClosed(g, first)
      decreases Missing(first, |g.terminals|), changed
    {
      changed := false;
      ghost var pass := first;
      var p := 0;
      while p < |g.productions|
        invariant p <= |g.productions|
        invariant FirstKnown(g, first) && TerminalsBelow(first, |g.terminals|) && LeastSoFar(g, first)
        invariant changed ==> Missing(first, |g.terminals|) < Missing(pass, |g.terminals|)
        invariant !changed ==> first == pass && forall q: nat :: q < p ==> FirstRule(g, first, q)
      {
        var step: bool;
        first, step := AddFirst(g, first, p);
        changed := changed || step;
        p := p + 1;
      }
      MissingBounds(pass, |g.terminals|);
      MissingBounds(first, |g.terminals|);
    }
  }

  // ---------- Lookaheads of a tail ----------

  method FirstOfTail(g: ResidualGrammar, first: seq<set<nat>>, item: LrItem) returns (lookaheads: set<Lookahead>)
    requires WellFormed(g) && FirstKnown(g, first) && ItemInRange(g, item) && Next(AugmentedProductions(g), item).Some?
    ensures lookaheads == ItemTail(g, first, item)
  {
    var rhs := AugmentedProductions(g)[item.production].rhs;
    var i := item.dot + 1;
    lookaheads := {};
    var tailNullable := true;
    RhsKnown(g, first, item.production, i);
    ghost var tail := rhs[i..];
    while i < |rhs| && tailNullable
      invariant item.dot + 1 <= i <= |rhs|
      invariant TailKnown(g.nullable, first, rhs[i..])
      invariant TailFirst(g.nullable, first, tail, item.lookahead)
             == lookaheads + if tailNullable then TailFirst(g.nullable, first, rhs[i..], item.lookahead) else {}
    {
      RhsKnown(g, first, item.production, i + 1);
      assert rhs[i..][1..] == rhs[i + 1..] && rhs[i..][0] == rhs[i];
      assert rhs[i] in rhs;
      match rhs[i] {
        case Terminal(t) =>
          lookaheads := lookaheads + {On(t)};
          tailNullable := false;
        case Nonterminal(n) =>
          lookaheads := lookaheads + set t <- first[n] :: On(t);
          tailNullable := g.nullable[n];
      }
      i := i + 1;
    }
    if tailNullable {
      lookaheads := lookaheads + {item.lookahead};
    }
  }

  // ---------- Closure and goto ----------

  function Room(limit: nat, used: nat): nat {
    if used <= limit then limit - used + 1 else 0
  }

  ghost predicate AllExpanded(g: ResidualGrammar, first: seq<set<nat>>, item: LrItem, result: set<LrItem>)
    requires FirstKnown(g, first)
  {
    forall p: nat, l :: ItemInRange(g, item) && Expands(g, first, item, p, l) ==> LrItem(p, 0, l) in result
  }

  lemma ForcedMore(g: ResidualGrammar, first: seq<set<nat>>, seed: set<LrItem>, result: set<LrItem>, item: LrItem,
      p: nat, l: Lookahead)
    requires FirstKnown(g, first) && Forced(g, first, seed, result) && item in result
    requires ItemInRange(g, item) && Expands(g, first, item, p, l)
    ensures Forced(g, first, seed, result + {LrItem(p, 0, l)})
  {
    forall k: iset<LrItem> | Covers(k, seed) && ClosedUnder(g, first, k) ensures Covers(k, result + {LrItem(p, 0, l)}) {
      assert Covers(k, result) && item in k;
    }
  }

  // Add the start items of production `p` under every lookahead.
  method AddCandidates(g: ResidualGrammar, first: seq<set<nat>>, ghost seed: set<LrItem>, item: LrItem, p: nat,
      lookaheads: set<Lookahead>, result: set<LrItem>, agenda: set<LrItem>, limits: CompileLimits)
    returns (more: set<LrItem>, pending: set<LrItem>, error: Option<CompileError>)
    requires FirstKnown(g, first) && Forced(g, first, seed, result) && item in result && agenda <= result
    requires (forall i <- result :: ItemInRange(g, i)) && ItemInRange(g, item)
    requires p < |g.productions| && Next(AugmentedProductions(g), item) == Some(Nonterminal(g.productions[p].lhs))
    requires lookaheads == ItemTail(g, first, item)
    ensures result <= more && agenda <= pending <= more && Forced(g, first, seed, more)
    ensures forall i <- more :: ItemInRange(g, i) && (i in result || i in pending)
    ensures error.None? ==> forall l <- lookaheads :: LrItem(p, 0, l) in more
    ensures error.None? && more != result ==> Room(limits.maxLrItems, |more|) < Room(limits.maxLrItems, |result|)
    ensures more == result ==> pending == agenda
    ensures error.Some? ==> TooBig(g, first, seed, limits, error.value)
  {
    hide TooBig, Forced;
    more, pending, error := result, agenda, None;
    var todo := lookaheads;
    while todo != {}
      invariant todo <= lookaheads && result <= more && agenda <= pending <= more && Forced(g, first, seed, more)
      invariant forall i <- more :: ItemInRange(g, i) && (i in result || i in pending)
      invariant forall l <- lookaheads - todo :: LrItem(p, 0, l) in more
      invariant more != result ==> Room(limits.maxLrItems, |more|) < Room(limits.maxLrItems, |result|)
      invariant more == result ==> pending == agenda
    {
      var l :| l in todo;
      todo := todo - {l};
      var candidate := LrItem(p, 0, l);
      if candidate !in more {
        ForcedMore(g, first, seed, more, item, p, l);
        more := more + {candidate};
        pending := pending + {candidate};
        if |more| > limits.maxLrItems {
          TooBigFrom(g, first, seed, more, limits);
          return more, pending, Some(ResourceLimitExceeded(LrConstruction, |more|, limits.maxLrItems));
        }
        LexicalSafety.SmallerSet(result, more);
      }
    }
  }

  // Add what one item expands to.
  method ExpandItem(g: ResidualGrammar, first: seq<set<nat>>, ghost seed: set<LrItem>, item: LrItem,
      result0: set<LrItem>, agenda0: set<LrItem>, limits: CompileLimits)
    returns (result: set<LrItem>, agenda: set<LrItem>, error: Option<CompileError>)
    requires WellFormed(g) && FirstClosed(g, first) && FirstKnown(g, first) && Forced(g, first, seed, result0)
    requires item in result0 && agenda0 <= result0 && forall i <- result0 :: ItemInRange(g, i)
    ensures result0 <= result && agenda0 <= agenda <= result && Forced(g, first, seed, result)
    ensures forall i <- result :: ItemInRange(g, i) && (i in result0 || i in agenda)
    ensures error.None? ==> AllExpanded(g, first, item, result)
    ensures error.None? && result != result0 ==> Room(limits.maxLrItems, |result|) < Room(limits.maxLrItems, |result0|)
    ensures result == result0 ==> agenda == agenda0
    ensures error.Some? ==> TooBig(g, first, seed, limits, error.value)
  {
    hide TooBig, Forced;
    var ps := AugmentedProductions(g);
    result, agenda, error := result0, agenda0, None;
    if Next(ps, item).Some? && Next(ps, item).value.Nonterminal? {
      var n := Next(ps, item).value.id;
      LalrAutomaton.NextKnown(g, first, item);
      var lookaheads := FirstOfTail(g, first, item);
      var i := 0;
      while i < |g.productionsByLhs[n]|
        invariant 0 <= i <= |g.productionsByLhs[n]|
        invariant result0 <= result && agenda0 <= agenda <= result && Forced(g, first, seed, result)
        invariant forall x <- result :: ItemInRange(g, x) && (x in result0 || x in agenda)
        invariant forall k, l :: 0 <= k < i && l in lookaheads ==> LrItem(g.productionsByLhs[n][k], 0, l) in result
        invariant result != result0 ==> Room(limits.maxLrItems, |result|) < Room(limits.maxLrItems, |result0|)
        invariant result == result0 ==> agenda == agenda0
      {
        var p := g.productionsByLhs[n][i];
        IndexKnown(g, n, i);
        result, agenda, error := AddCandidates(g, first, seed, item, p, lookaheads, result, agenda, limits);
        if error.Some? {
          return;
        }
        i := i + 1;
      }
      forall p: nat, l | Expands(g, first, item, p, l) ensures LrItem(p, 0, l) in result {
        assert p in g.productionsByLhs[n];
        var k :| 0 <= k < |g.productionsByLhs[n]| && g.productionsByLhs[n][k] == p;
      }
    }
    error := None;
  }

  method Closure(g: ResidualGrammar, first: seq<set<nat>>, seed: set<LrItem>, limits: CompileLimits)
    returns (r: Result<set<LrItem>>)
    requires WellFormed(g) && FirstClosed(g, first) && forall s <- seed :: ItemInRange(g, s)
    ensures r.Ok? ==> IsClosure(g, first, seed, r.value)
    ensures r.Err? ==> TooBig(g, first, seed, limits, r.error)
  {
    hide TooBig, WellFormed, AllExpanded;
    var result, agenda := seed, seed;
    while agenda != {}
      invariant seed <= result && agenda <= result && forall i <- result :: ItemInRange(g, i)
      invariant Forced(g, first, seed, result)
      invariant forall i <- result :: i in agenda || AllExpanded(g, first, i, result)
      decreases Room(limits.maxLrItems, |result|), |agenda|
    {
      var item :| item in agenda;
      ghost var before, pending := result, agenda;
      agenda := agenda - {item};
      var error: Option<CompileError>;
      result, agenda, error := ExpandItem(g, first, seed, item, result, agenda, limits);
      if error.Some? {
        return Err(error.value);
      }
      forall i <- result ensures i in agenda || AllExpanded(g, first, i, result) {
        if i !in agenda && i != item {
          assert i in before && i !in pending;
          ExpandedStays(g, first, i, before, result);
        }
      }
    }
    ExpandedIsClosed(g, first, result);
    r := Ok(result);
  }

  lemma ExpandedStays(g: ResidualGrammar, first: seq<set<nat>>, item: LrItem, before: set<LrItem>, after: set<LrItem>)
    requires FirstKnown(g, first) && AllExpanded(g, first, item, before) && before <= after
    ensures AllExpanded(g, first, item, after)
  {
  }

  lemma ExpandedIsClosed(g: ResidualGrammar, first: seq<set<nat>>, result: set<LrItem>)
    requires FirstKnown(g, first) && forall i <- result :: AllExpanded(g, first, i, result)
    ensures ClosedUnder(g, first, iset i | i in result)
  {
    forall i, p: nat, l | i in result && ItemInRange(g, i) && Expands(g, first, i, p, l)
      ensures LrItem(p, 0, l) in result
    {
      assert AllExpanded(g, first, i, result);
    }
  }

  lemma IndexKnown(g: ResidualGrammar, n: nat, i: nat)
    requires WellFormed(g) && n < g.nonterminals && i < |g.productionsByLhs[n]|
    ensures g.productionsByLhs[n][i] < |g.productions| && g.productions[g.productionsByLhs[n][i]].lhs == n
  {
    var p := g.productionsByLhs[n][i];
    assert p in g.productionsByLhs[n];
  }

  lemma MovedInRange(g: ResidualGrammar, items: set<LrItem>, s: Symbol)
    requires forall i <- items :: ItemInRange(g, i)
    ensures forall i <- MovedOver(AugmentedProductions(g), items, s) :: ItemInRange(g, i) && i.dot > 0
  {
  }

  method Goto(g: ResidualGrammar, first: seq<set<nat>>, items: set<LrItem>, s: Symbol, limits: CompileLimits)
    returns (r: Result<set<LrItem>>)
    requires WellFormed(g) && FirstClosed(g, first) && forall i <- items :: ItemInRange(g, i)
    ensures r.Ok? ==> IsClosure(g, first, MovedOver(AugmentedProductions(g), items, s), r.value)
    ensures r.Err? ==> TooBig(g, first, MovedOver(AugmentedProductions(g), items, s), limits, r.error)
  {
    var moved: set<LrItem> := {};
    var todo := items;
    while todo != {}
      invariant todo <= items && moved == MovedOver(AugmentedProductions(g), items - todo, s)
    {
      var item :| item in todo;
      assert items - (todo - {item}) == (items - todo) + {item};
      todo := todo - {item};
      if Next(AugmentedProductions(g), item) == Some(s) {
        moved := moved + {Moved(item)};
      }
    }
    assert items - {} == items;
    MovedInRange(g, items, s);
    r := Closure(g, first, moved, limits);
  }

  // ---------- The canonical collection ----------

  ghost predicate IdsExact(canonical: seq<set<LrItem>>, ids: map<set<LrItem>, nat>) {
    forall s <- ids :: ids[s] < |canonical| && canonical[ids[s]] == s
  }

  lemma CollectionGrows(g: ResidualGrammar, first: seq<set<nat>>, canonical: seq<set<LrItem>>,
      transitions: map<(nat, Symbol), nat>, target: set<LrItem>)
    requires FirstKnown(g, first) && Collection(g, first, canonical, transitions)
    requires StateClosure(g, first, |canonical|, target)
    ensures Collection(g, first, canonical + [target], transitions)
  {
    forall e <- transitions ensures Transition(g, first, canonical + [target], e, transitions[e]) {
      assert Transition(g, first, canonical, e, transitions[e]);
    }
  }

  lemma TransitionAdded(g: ResidualGrammar, first: seq<set<nat>>, canonical: seq<set<LrItem>>,
      transitions: map<(nat, Symbol), nat>, e: (nat, Symbol), target: nat)
    requires FirstKnown(g, first) && Collection(g, first, canonical, transitions)
    requires Transition(g, first, canonical, e, target)
    ensures Collection(g, first, canonical, transitions[e := target])
  {
    var next := transitions[e := target];
    forall f <- next ensures Transition(g, first, canonical, f, next[f]) {
      assert f != e ==> Transition(g, first, canonical, f, transitions[f]);
    }
  }

  lemma StateInRange(g: ResidualGrammar, first: seq<set<nat>>, c: nat, items: set<LrItem>)
    requires FirstKnown(g, first) && StateClosure(g, first, c, items)
    ensures forall i <- items :: ItemInRange(g, i)
  {
  }

  lemma MovedSeed(g: ResidualGrammar, first: seq<set<nat>>, items: set<LrItem>, s: Symbol, target: set<LrItem>, c: nat)
    requires FirstKnown(g, first) && c > 0 && (forall i <- items :: ItemInRange(g, i)) && Expects(g, items, s)
    requires IsClosure(g, first, MovedOver(AugmentedProductions(g), items, s), target)
    ensures StateClosure(g, first, c, target)
  {
    var seed := MovedOver(AugmentedProductions(g), items, s);
    var item :| item in items && Next(AugmentedProductions(g), item) == Some(s);
    assert Moved(item) in seed;
    MovedInRange(g, items, s);
    assert StateSeed(g, c, seed);
  }

  lemma IdKnown(canonical: seq<set<LrItem>>, ids: map<set<LrItem>, nat>, target: set<LrItem>)
    requires IdsExact(canonical, ids)
    ensures target in ids ==> ids[target] < |canonical| && canonical[ids[target]] == target
  {
  }

  lemma NewId(canonical: seq<set<LrItem>>, ids: map<set<LrItem>, nat>, target: set<LrItem>)
    requires IdsExact(canonical, ids)
    ensures IdsExact(canonical + [target], ids[target := |canonical|])
  {
  }

  lemma TransitionFound(g: ResidualGrammar, first: seq<set<nat>>, canonical: seq<set<LrItem>>, state: nat, s: Symbol,
      id: nat)
    requires FirstKnown(g, first) && state < |canonical| && id < |canonical| && Expects(g, canonical[state], s)
    requires IsClosure(g, first, MovedOver(AugmentedProductions(g), canonical[state], s), canonical[id])
    ensures Transition(g, first, canonical, (state, s), id)
  {
  }

  lemma CollectionState(g: ResidualGrammar, first: seq<set<nat>>, canonical: seq<set<LrItem>>,
      transitions: map<(nat, Symbol), nat>, c: nat)
    requires FirstKnown(g, first) && Collection(g, first, canonical, transitions) && c < |canonical|
    ensures StateClosure(g, first, c, canonical[c])
  {
  }

  method SymbolsAfterDots(g: ResidualGrammar, items: set<LrItem>) returns (symbols: set<Symbol>)
    ensures forall s :: s in symbols <==> Expects(g, items, s)
  {
    symbols := {};
    var todo := items;
    while todo != {}
      invariant todo <= items
      invariant forall s :: s in symbols <==>
                  exists i :: i in items && i !in todo && Next(AugmentedProductions(g), i) == Some(s)
    {
      var item :| item in todo;
      ghost var before := symbols;
      var rest := todo - {item};
      if Next(AugmentedProductions(g), item).Some? {
        symbols := symbols + {Next(AugmentedProductions(g), item).value};
      }
      forall s
        ensures s in symbols <==> exists i :: i in items && i !in rest && Next(AugmentedProductions(g), i) == Some(s)
      {
        if s in symbols && s !in before {
          assert item in items && item !in rest && Next(AugmentedProductions(g), item) == Some(s);
        }
        if s in before {
          var i :| i in items && i !in todo && Next(AugmentedProductions(g), i) == Some(s);
          assert i !in rest;
        }
      }
      todo := rest;
    }
  }

  // The states so far, the transitions between them, their ids and their count of items.
  ghost predicate Tracked(g: ResidualGrammar, first: seq<set<nat>>, canonical: seq<set<LrItem>>,
      ids: map<set<LrItem>, nat>, transitions: map<(nat, Symbol), nat>, total: nat)
  {
    && WellFormed(g) && FirstClosed(g, first) && FirstKnown(g, first)
    && Collection(g, first, canonical, transitions) && IdsExact(canonical, ids)
    && Tallied(g, first, canonical, ids, total)
  }

  // One more state, behind a transition from `state`.
  lemma StatePlaced(g: ResidualGrammar, first: seq<set<nat>>, canonical: seq<set<LrItem>>,
      ids: map<set<LrItem>, nat>, transitions: map<(nat, Symbol), nat>, total: nat, state: nat, s: Symbol,
      target: set<LrItem>)
    requires Tracked(g, first, canonical, ids, transitions, total) && FirstKnown(g, first) && state < |canonical|
    requires Expects(g, canonical[state], s) && target !in ids
    requires IsClosure(g, first, MovedOver(AugmentedProductions(g), canonical[state], s), target)
    ensures Tracked(g, first, canonical + [target], ids[target := |canonical|], transitions, total + |target|)
  {
    hide Collection, IsClosure, MovedOver, WellFormed, FirstClosed, StateClosure, Expects, IdsExact, Tallied;
    var items := canonical[state];
    TallyMore(g, first, canonical, ids, total, items, s, target);
    CollectionState(g, first, canonical, transitions, state);
    StateInRange(g, first, state, items);
    SomeState(g, first, canonical, transitions);
    MovedSeed(g, first, items, s, target, |canonical|);
    CollectionGrows(g, first, canonical, transitions, target);
    NewId(canonical, ids, target);
  }

  lemma SomeState(g: ResidualGrammar, first: seq<set<nat>>, canonical: seq<set<LrItem>>,
      transitions: map<(nat, Symbol), nat>)
    requires FirstKnown(g, first) && Collection(g, first, canonical, transitions)
    ensures |canonical| > 0
  {
  }

  // One more transition, to a state that is there.
  lemma EdgePlaced(g: ResidualGrammar, first: seq<set<nat>>, canonical: seq<set<LrItem>>,
      ids: map<set<LrItem>, nat>, transitions: map<(nat, Symbol), nat>, total: nat, state: nat, s: Symbol, id: nat)
    requires Tracked(g, first, canonical, ids, transitions, total) && FirstKnown(g, first) && state < |canonical|
    requires Expects(g, canonical[state], s) && id < |canonical|
    requires IsClosure(g, first, MovedOver(AugmentedProductions(g), canonical[state], s), canonical[id])
    ensures Tracked(g, first, canonical, ids, transitions[(state, s) := id], total)
  {
    hide Collection, IsClosure, MovedOver, WellFormed, FirstClosed, StateClosure, Expects, IdsExact, Tallied,
      Transition;
    TransitionFound(g, first, canonical, state, s, id);
    TransitionAdded(g, first, canonical, transitions, (state, s), id);
  }

  lemma TrackedFacts(g: ResidualGrammar, first: seq<set<nat>>, canonical: seq<set<LrItem>>,
      ids: map<set<LrItem>, nat>, transitions: map<(nat, Symbol), nat>, total: nat, state: nat)
    requires Tracked(g, first, canonical, ids, transitions, total) && state < |canonical|
    ensures WellFormed(g) && FirstClosed(g, first) && FirstKnown(g, first) && Tallied(g, first, canonical, ids, total)
    ensures IdsExact(canonical, ids) && forall i <- canonical[state] :: ItemInRange(g, i)
  {
    hide IsClosure, WellFormed, FirstClosed, StateClosure, IdsExact, Tallied;
    CollectionState(g, first, canonical, transitions, state);
    StateInRange(g, first, state, canonical[state]);
  }

  // What was added to the queue are the numbers of the new states.
  ghost predicate Queued(queue0: seq<nat>, queue: seq<nat>, n0: nat, n: nat) {
    (n == n0 ==> queue == queue0) && n0 <= n && forall q :: q in queue <==> q in queue0 || n0 <= q < n
  }

  lemma QueuedThen(queue0: seq<nat>, queue: seq<nat>, more: seq<nat>, n0: nat, n: nat, m: nat)
    requires Queued(queue0, queue, n0, n) && Queued(queue, more, n, m)
    ensures Queued(queue0, more, n0, m)
  {
  }

  lemma QueuedOne(queue: seq<nat>, n: nat)
    ensures Queued(queue, queue + [n], n, n + 1)
  {
  }

  // The state behind a transition, known already or new.
  method PlaceState(g: ResidualGrammar, first: seq<set<nat>>, state: nat, s: Symbol, target: set<LrItem>,
      limits: CompileLimits, canonical0: seq<set<LrItem>>, ids0: map<set<LrItem>, nat>,
      ghost transitions: map<(nat, Symbol), nat>, queue0: seq<nat>, total0: nat)
    returns (canonical: seq<set<LrItem>>, ids: map<set<LrItem>, nat>, queue: seq<nat>, total: nat, id: nat,
             error: Option<CompileError>)
    requires Tracked(g, first, canonical0, ids0, transitions, total0) && FirstKnown(g, first) && state < |canonical0|
    requires Expects(g, canonical0[state], s)
    requires IsClosure(g, first, MovedOver(AugmentedProductions(g), canonical0[state], s), target)
    ensures error.Some? ==> OverLimit(g, limits, error.value)
    ensures error.None? ==>
              && canonical0 <= canonical && id < |canonical| && canonical[id] == target
              && Tracked(g, first, canonical, ids, transitions, total)
              && (|canonical| == |canonical0| || |canonical| <= limits.maxLrStates)
              && Queued(queue0, queue, |canonical0|, |canonical|)
  {
    hide Tracked, IsClosure, MovedOver, Expects, IdsExact, Tallied, OverLimit;
    canonical, ids, queue, total, error := canonical0, ids0, queue0, total0, None;
    TrackedFacts(g, first, canonical, ids, transitions, total, state);
    IdKnown(canonical, ids, target);
    if target in ids {
      id := ids[target];
      return;
    }
    StatePlaced(g, first, canonical, ids, transitions, total, state, s, target);
    id := |canonical|;
    TrackedFacts(g, first, canonical + [target], ids[target := id], transitions, total + |target|, id);
    TallyOver(g, first, canonical + [target], ids[target := id], total + |target|, limits);
    if |canonical| + 1 > limits.maxLrStates {
      error := Some(ResourceLimitExceeded(LrConstruction, |canonical| + 1, limits.maxLrStates));
      return;
    }
    total := total + |target|;
    if total > limits.maxLrItems {
      error := Some(ResourceLimitExceeded(LrConstruction, total, limits.maxLrItems));
      return;
    }
    QueuedOne(queue, id);
    ids := ids[target := id];
    canonical := canonical + [target];
    queue := queue + [id];
  }

  // Transitions of one state, over every symbol it expects.
  method ExpandState(g: ResidualGrammar, first: seq<set<nat>>, state: nat, limits: CompileLimits,
      canonical0: seq<set<LrItem>>, ids0: map<set<LrItem>, nat>, transitions0: map<(nat, Symbol), nat>,
      queue0: seq<nat>, total0: nat)
    returns (canonical: seq<set<LrItem>>, ids: map<set<LrItem>, nat>, transitions: map<(nat, Symbol), nat>,
             queue: seq<nat>, total: nat, error: Option<CompileError>)
    requires Tracked(g, first, canonical0, ids0, transitions0, total0) && state < |canonical0|
    ensures error.Some? ==> OverLimit(g, limits, error.value)
    ensures error.None? ==>
              && canonical0 <= canonical && (forall e <- transitions0 :: e in transitions)
              && Tracked(g, first, canonical, ids, transitions, total)
              && Expanded(g, canonical, transitions, state)
              && (|canonical| == |canonical0| || |canonical| <= limits.maxLrStates)
              && Queued(queue0, queue, |canonical0|, |canonical|)
  {
    hide Tracked, IsClosure, MovedOver, Expects, IdsExact, Tallied, OverLimit, WellFormed, FirstClosed, LeastFirst,
      SeedOf, TooBig;
    canonical, ids, transitions, queue, total, error := canonical0, ids0, transitions0, queue0, total0, None;
    TrackedFacts(g, first, canonical, ids, transitions, total, state);
    var items := canonical[state];
    var symbols := SymbolsAfterDots(g, items);
    var todo := symbols;
    while todo != {}
      invariant error.None? && todo <= symbols
      invariant canonical0 <= canonical && (forall e <- transitions0 :: e in transitions)
      invariant Tracked(g, first, canonical, ids, transitions, total)
      invariant forall s <- symbols - todo :: (state, s) in transitions
      invariant |canonical| == |canonical0| || |canonical| <= limits.maxLrStates
      invariant Queued(queue0, queue, |canonical0|, |canonical|)
    {
      var s :| s in todo;
      todo := todo - {s};
      assert canonical[state] == items;
      var r := Goto(g, first, items, s, limits);
      if r.Err? {
        TrackedFacts(g, first, canonical, ids, transitions, total, state);
        TallySeed(g, first, canonical, ids, total, items, s);
        TooBigIsOver(g, first, MovedOver(AugmentedProductions(g), items, s), limits, r.error);
        return canonical, ids, transitions, queue, total, Some(r.error);
      }
      ghost var before, queued := canonical, queue;
      var id: nat;
      canonical, ids, queue, total, id, error :=
        PlaceState(g, first, state, s, r.value, limits, canonical, ids, transitions, queue, total);
      if error.Some? {
        return;
      }
      QueuedThen(queue0, queued, queue, |canonical0|, |before|, |canonical|);
      assert canonical[state] == items;
      EdgePlaced(g, first, canonical, ids, transitions, total, state, s, id);
      transitions := transitions[(state, s) := id];
    }
    assert canonical[state] == items;
  }

  method CollectStates(g: ResidualGrammar, first: seq<set<nat>>, limits: CompileLimits)
    returns (canonical: seq<set<LrItem>>, transitions: map<(nat, Symbol), nat>, error: Option<CompileError>)
    requires WellFormed(g) && LeastFirst(g, first)
    ensures error.Some? ==> OverLimit(g, limits, error.value)
    ensures error.None? ==> Collection(g, first, canonical, transitions) && CanonicalStates(g, first, canonical)
                            && forall c: nat :: c < |canonical| ==> Expanded(g, canonical, transitions, c)
    ensures error.None? ==> |canonical| == 1 || |canonical| <= limits.maxLrStates
  {
    hide OverLimit, TooBig, IsClosure, Tallied, IdsExact, LeastSoFar, WellFormed, Tracked;
    canonical, transitions := [], map[];
    var initial := Closure(g, first, {StartItem(g)}, limits);
    if initial.Err? {
      TooBigIsOver(g, first, {StartItem(g)}, limits, initial.error);
      return canonical, transitions, Some(initial.error);
    }
    canonical := [initial.value];
    var ids: map<set<LrItem>, nat> := map[initial.value := 0];
    var queue: seq<nat> := [0];
    var total: nat := |initial.value|;
    StartTracked(g, first, initial.value);
    while queue != []
      invariant Tracked(g, first, canonical, ids, transitions, total)
      invariant (forall q <- queue :: q < |canonical|) && (|canonical| == 1 || |canonical| <= limits.maxLrStates)
      invariant forall c: nat :: c < |canonical| && c !in queue ==> Expanded(g, canonical, transitions, c)
      decreases Room(limits.maxLrStates, |canonical|), |queue|
    {
      var state := queue[0];
      var rest := queue[1..];
      assert queue == [state] + rest;
      ghost var was, old_, q0 := canonical, transitions, queue;
      assert state in queue && forall q <- rest :: q in queue;
      canonical, ids, transitions, queue, total, error :=
        ExpandState(g, first, state, limits, canonical, ids, transitions, rest, total);
      if error.Some? {
        return;
      }
      forall c: nat | c < |canonical| && c !in queue ensures Expanded(g, canonical, transitions, c) {
        if c != state {
          assert c < |was| && c !in q0;
          assert Expanded(g, was, old_, c);
        }
      }
    }
    error := None;
    TrackedEnd(g, first, canonical, ids, transitions, total);
  }

  lemma StartTracked(g: ResidualGrammar, first: seq<set<nat>>, initial: set<LrItem>)
    requires WellFormed(g) && LeastFirst(g, first) && IsClosure(g, first, {StartItem(g)}, initial)
    ensures Tracked(g, first, [initial], map[initial := 0], map[], |initial|)
  {
    hide WellFormed, FirstClosed, IsClosure, LeastSoFar, Tallied;
    assert FirstKnown(g, first) by { FirstClosedKnown(g, first); }
    TallyStart(g, first, initial);
    assert StateSeed(g, 0, {StartItem(g)});
    assert StateClosure(g, first, 0, initial);
  }

  lemma TrackedEnd(g: ResidualGrammar, first: seq<set<nat>>, canonical: seq<set<LrItem>>,
      ids: map<set<LrItem>, nat>, transitions: map<(nat, Symbol), nat>, total: nat)
    requires Tracked(g, first, canonical, ids, transitions, total)
    ensures FirstKnown(g, first) && Collection(g, first, canonical, transitions)
    ensures CanonicalStates(g, first, canonical)
  {
  }

  // ---------- Merging cores ----------

  function Widen(merged: seq<set<LrItem>>, id: nat, state: set<LrItem>): seq<set<LrItem>>
    requires id <= |merged|
  {
    var wide := if id < |merged| then merged else merged + [{}];
    wide[id := wide[id] + state]
  }

  lemma WidenedSize(merged: seq<set<LrItem>>, id: nat, state: set<LrItem>)
    requires id <= |merged|
    ensures |Widen(merged, id, state)| == if id < |merged| then |merged| else |merged| + 1
  {
  }

  lemma MembersStep(canonical: seq<set<LrItem>>, upto: nat, merged: seq<set<LrItem>>, mapping: seq<nat>, id: nat,
      m: nat, item: LrItem)
    requires upto < |canonical| && |mapping| == upto && id <= |merged|
    requires m < |merged| && item in merged[m] ==> MemberOf(canonical, upto, mapping, m, item)
    requires var next := Widen(merged, id, canonical[upto]); m < |next| && item in next[m]
    ensures MemberOf(canonical, upto + 1, mapping + [id], m, item)
  {
    var map1 := mapping + [id];
    if m < |merged| && item in merged[m] {
      var c :| 0 <= c < upto && mapping[c] == m && item in canonical[c];
      assert map1[c] == m;
    } else {
      assert map1[upto] == id && item in canonical[upto];
    }
  }

  lemma MergeStep(canonical: seq<set<LrItem>>, upto: nat, merged: seq<set<LrItem>>, mapping: seq<nat>, id: nat)
    requires upto < |canonical| && Merged(canonical, upto, merged, mapping) && id <= |merged|
    requires forall c :: 0 <= c < upto ==> (mapping[c] == id <==> Core(canonical[c]) == Core(canonical[upto]))
    requires upto == 0 ==> id == 0
    ensures Merged(canonical, upto + 1, Widen(merged, id, canonical[upto]), mapping + [id])
  {
    hide MemberOf, Core;
    var next := Widen(merged, id, canonical[upto]);
    var map1 := mapping + [id];
    forall m: nat, item | m < |next| && item in next[m] ensures MemberOf(canonical, upto + 1, map1, m, item) {
      MembersStep(canonical, upto, merged, mapping, id, m, item);
    }
  }

  method MergeCores(canonical: seq<set<LrItem>>, limits: CompileLimits)
    returns (merged: seq<set<LrItem>>, mapping: seq<nat>, error: Option<CompileError>)
    ensures error.Some? ==> CoresOver(canonical, limits, error.value)
    ensures error.None? ==> Merged(canonical, |canonical|, merged, mapping) && |merged| <= limits.maxLrStates
  {
    hide Merged, Core, Widen, CoresOver;
    merged, mapping, error := [], [], None;
    var groups: map<set<(nat, nat)>, nat> := map[];
    var c := 0;
    ghost var apart: seq<set<LrItem>> := [];
    NothingMerged(canonical);
    while c < |canonical|
      invariant 0 <= c <= |canonical| && |mapping| == c && Merged(canonical, c, merged, mapping)
      invariant GroupsExact(canonical, c, |merged|, mapping, groups)
      invariant c == 0 ==> merged == []
      invariant |apart| == |merged| <= limits.maxLrStates && CoresApart(apart)
      invariant forall s <- apart :: s in canonical && Core(s) in groups
    {
      var core := Core(canonical[c]);
      var id: nat;
      if core in groups {
        id := groups[core];
      } else {
        apart := apart + [canonical[c]];
        if |merged| + 1 > limits.maxLrStates {
          CoresOverFrom(canonical, limits, apart);
          return merged, mapping, Some(ResourceLimitExceeded(LalrMerge, |merged| + 1, limits.maxLrStates));
        }
        id := |merged|;
      }
      GroupStep(canonical, c, merged, mapping, groups, id);
      MergeStep(canonical, c, merged, mapping, id);
      WidenedSize(merged, id, canonical[c]);
      groups := groups[core := id];
      merged := Widen(merged, id, canonical[c]);
      mapping := mapping + [id];
      c := c + 1;
    }
  }

  // The group table knows every core met so far and the state it went to.
  ghost predicate GroupsExact(canonical: seq<set<LrItem>>, upto: nat, states: nat, mapping: seq<nat>,
      groups: map<set<(nat, nat)>, nat>)
  {
    && upto == |mapping| <= |canonical|
    && (forall k <- groups :: groups[k] < states)
    && (forall d :: 0 <= d < upto ==> Core(canonical[d]) in groups && groups[Core(canonical[d])] == mapping[d])
    && (forall k, l :: k in groups && l in groups && groups[k] == groups[l] ==> k == l)
  }

  lemma NothingMerged(canonical: seq<set<LrItem>>)
    ensures Merged(canonical, 0, [], []) && GroupsExact(canonical, 0, 0, [], map[])
  {
  }

  lemma GroupStep(canonical: seq<set<LrItem>>, c: nat, merged: seq<set<LrItem>>, mapping: seq<nat>,
      groups: map<set<(nat, nat)>, nat>, id: nat)
    requires c < |canonical| && GroupsExact(canonical, c, |merged|, mapping, groups)
    requires id == if Core(canonical[c]) in groups then groups[Core(canonical[c])] else |merged|
    ensures id <= |merged| && |mapping| == c
    ensures forall d :: 0 <= d < c ==> (mapping[d] == id <==> Core(canonical[d]) == Core(canonical[c]))
    ensures GroupsExact(canonical, c + 1, |Widen(merged, id, canonical[c])|, mapping + [id],
            groups[Core(canonical[c]) := id])
    ensures c == 0 && merged == [] ==> id == 0
  {
    hide Core;
  }

  method AnyOf<T(==)>(s: set<T>) returns (x: T)
    requires s != {}
    ensures x in s
  {
    x :| x in s;
  }

  // Carry the transitions over to merged states.  Two that fall together always agree.
  method MergeEdges(g: ResidualGrammar, first: seq<set<nat>>, canonical: seq<set<LrItem>>,
      transitions: map<(nat, Symbol), nat>, merged: seq<set<LrItem>>, mapping: seq<nat>)
    returns (edges: map<(nat, Symbol), nat>, error: Option<CompileError>)
    requires FirstKnown(g, first) && Collection(g, first, canonical, transitions)
    requires Merged(canonical, |canonical|, merged, mapping)
    ensures error.None?
    ensures EdgesKept(transitions, mapping, edges) && EdgesOnly(transitions, mapping, edges)
  {
    hide Collection, Merged, KeptExcept, OnlyExcept, EdgesKept, EdgesOnly, FirstKnown;
    edges, error := map[], None;
    var todo := transitions.Keys;
    NoEdgesYet(transitions, mapping);
    while todo != {}
      invariant todo <= transitions.Keys
      invariant KeptExcept(transitions, todo, mapping, edges) && OnlyExcept(transitions, todo, mapping, edges)
    {
      var e := AnyOf(todo);
      EndsKnown(g, first, canonical, transitions, merged, mapping, e);
      var edge := (mapping[e.0], e.1);
      var target := mapping[transitions[e]];
      if edge in edges && edges[edge] != target {
        ghost var d := EdgeCarrier(transitions, todo, mapping, edges, edge);
        EdgesAgree(g, first, canonical, transitions, merged, mapping, e, d);
        assert false;
      }
      EdgeAdded(transitions, todo, mapping, edges, e);
      edges := edges[edge := target];
      todo := todo - {e};
    }
    AllEdgesDone(transitions, mapping, edges);
  }

  lemma NoEdgesYet(transitions: map<(nat, Symbol), nat>, mapping: seq<nat>)
    ensures KeptExcept(transitions, transitions.Keys, mapping, map[])
    ensures OnlyExcept(transitions, transitions.Keys, mapping, map[])
  {
  }

  lemma AllEdgesDone(transitions: map<(nat, Symbol), nat>, mapping: seq<nat>, edges: map<(nat, Symbol), nat>)
    requires KeptExcept(transitions, {}, mapping, edges) && OnlyExcept(transitions, {}, mapping, edges)
    ensures EdgesKept(transitions, mapping, edges) && EdgesOnly(transitions, mapping, edges)
  {
    forall f <- edges ensures exists e :: e in transitions && CarriedTo(transitions, mapping, edges, e, f) {
      var e := EdgeCarrier(transitions, {}, mapping, edges, f);
    }
  }

  lemma EdgeCarrier(transitions: map<(nat, Symbol), nat>, todo: set<(nat, Symbol)>, mapping: seq<nat>,
      edges: map<(nat, Symbol), nat>, f: (nat, Symbol)) returns (e: (nat, Symbol))
    requires OnlyExcept(transitions, todo, mapping, edges) && f in edges
    ensures e in transitions && e !in todo && CarriedTo(transitions, mapping, edges, e, f)
  {
    e :| e in transitions && e !in todo && CarriedTo(transitions, mapping, edges, e, f);
  }

  ghost predicate KeptExcept(transitions: map<(nat, Symbol), nat>, todo: set<(nat, Symbol)>, mapping: seq<nat>,
      edges: map<(nat, Symbol), nat>)
  {
    forall e <- transitions :: e !in todo ==>
      e.0 < |mapping| && transitions[e] < |mapping|
      && (mapping[e.0], e.1) in edges && edges[(mapping[e.0], e.1)] == mapping[transitions[e]]
  }

  ghost predicate OnlyExcept(transitions: map<(nat, Symbol), nat>, todo: set<(nat, Symbol)>, mapping: seq<nat>,
      edges: map<(nat, Symbol), nat>)
  {
    forall f <- edges :: exists e :: e in transitions && e !in todo && CarriedTo(transitions, mapping, edges, e, f)
  }

  lemma EndsKnown(g: ResidualGrammar, first: seq<set<nat>>, canonical: seq<set<LrItem>>,
      transitions: map<(nat, Symbol), nat>, merged: seq<set<LrItem>>, mapping: seq<nat>, e: (nat, Symbol))
    requires FirstKnown(g, first) && Collection(g, first, canonical, transitions)
    requires Merged(canonical, |canonical|, merged, mapping) && e in transitions
    ensures e.0 < |mapping| && transitions[e] < |mapping|
  {
    assert Transition(g, first, canonical, e, transitions[e]);
  }

  // Transitions of merged sources under the same symbol have merged targets.
  lemma EdgesAgree(g: ResidualGrammar, first: seq<set<nat>>, canonical: seq<set<LrItem>>,
      transitions: map<(nat, Symbol), nat>, merged: seq<set<LrItem>>, mapping: seq<nat>, e: (nat, Symbol),
      d: (nat, Symbol))
    requires FirstKnown(g, first) && Collection(g, first, canonical, transitions)
    requires Merged(canonical, |canonical|, merged, mapping) && e in transitions && d in transitions
    requires e.0 < |mapping| && d.0 < |mapping| && transitions[e] < |mapping| && transitions[d] < |mapping|
    requires mapping[e.0] == mapping[d.0] && e.1 == d.1
    ensures mapping[transitions[e]] == mapping[transitions[d]]
  {
    assert Transition(g, first, canonical, e, transitions[e]);
    assert Transition(g, first, canonical, d, transitions[d]);
    TargetsTogether(g, first, canonical, e.0, d.0, e.1, transitions[e], transitions[d]);
  }

  lemma EdgeAdded(transitions: map<(nat, Symbol), nat>, todo: set<(nat, Symbol)>, mapping: seq<nat>,
      edges: map<(nat, Symbol), nat>, e: (nat, Symbol))
    requires e in transitions && e in todo && e.0 < |mapping| && transitions[e] < |mapping|
    requires KeptExcept(transitions, todo, mapping, edges) && OnlyExcept(transitions, todo, mapping, edges)
    requires (mapping[e.0], e.1) in edges ==> edges[(mapping[e.0], e.1)] == mapping[transitions[e]]
    ensures var next := edges[(mapping[e.0], e.1) := mapping[transitions[e]]];
            KeptExcept(transitions, todo - {e}, mapping, next) && OnlyExcept(transitions, todo - {e}, mapping, next)
  {
    var next := edges[(mapping[e.0], e.1) := mapping[transitions[e]]];
    forall f <- next
      ensures exists d :: d in transitions && d !in todo - {e} && CarriedTo(transitions, mapping, next, d, f)
    {
      if f == (mapping[e.0], e.1) {
        assert CarriedTo(transitions, mapping, next, e, f);
      } else {
        var d :| d in transitions && d !in todo && CarriedTo(transitions, mapping, edges, d, f);
        assert CarriedTo(transitions, mapping, next, d, f);
      }
    }
  }

  // ---------- The table ----------

  // The first action of a cell stays; a different one is reported.
  method InsertAction(row: map<Lookahead, Action>, state: nat, l: Lookahead, action: Action, conflicts: seq<Conflict>,
      limits: CompileLimits)
    returns (row': map<Lookahead, Action>, conflicts': seq<Conflict>, error: Option<CompileError>)
    ensures error.Some? ==>
              && l in row && row[l] != action && |conflicts| + 1 > limits.maxReportedConflicts
              && error.value == ResourceLimitExceeded(LalrTableStage, |conflicts| + 1, limits.maxReportedConflicts)
    ensures error.None? ==>
              && row' == (if l in row then row else row[l := action])
              && conflicts' == (if l in row && row[l] != action
                                then conflicts + [Conflict(KindOf(row[l], action), state, l, row[l], action)]
                                else conflicts)
              && (conflicts' == conflicts || |conflicts'| <= limits.maxReportedConflicts)
  {
    row', conflicts', error := row, conflicts, None;
    if l !in row {
      row' := row[l := action];
    } else if row[l] != action {
      if |conflicts| + 1 > limits.maxReportedConflicts {
        error := Some(ResourceLimitExceeded(LalrTableStage, |conflicts| + 1, limits.maxReportedConflicts));
        return;
      }
      conflicts' := conflicts + [Conflict(KindOf(row[l], action), state, l, row[l], action)];
    }
  }

  // One item's demand has been met, or a conflict says why not.
  ghost predicate RowSound(g: ResidualGrammar, a: Automaton, m: nat, actions: map<Lookahead, Action>,
      gotos: map<nat, nat>)
    requires m < |a.states|
  {
    && (forall l <- actions :: ActionFrom(g, a, m, l, actions[l]))
    && (forall n <- gotos :: (m, Nonterminal(n)) in a.edges && gotos[n] == a.edges[(m, Nonterminal(n))])
  }

  ghost predicate Served(g: ResidualGrammar, a: Automaton, m: nat, items: set<LrItem>, actions: map<Lookahead, Action>,
      gotos: map<nat, nat>, told: seq<Conflict>)
  {
    forall item <- items :: Answered(g, a, m, item, actions, gotos, told)
  }

  // Each conflict is about an item of its own.
  ghost predicate Sourced(g: ResidualGrammar, a: Automaton, upto: nat, conflicts: seq<Conflict>,
      sources: seq<(nat, LrItem)>)
  {
    |sources| == |conflicts| && Distinct(sources) && forall x <- sources :: x.0 < upto && Unserved(g, a, x)
  }

  lemma DemandServed(g: ResidualGrammar, a: Automaton, m: nat, item: LrItem, actions: map<Lookahead, Action>,
      gotos: map<nat, nat>)
    requires Demand(g, a, m, item).Some?
    ensures var (l, action) := Demand(g, a, m, item).value;
            RowServes(g, a, m, item, actions, gotos) <==> l in actions && actions[l] == action
  {
  }

  lemma DemandSound(g: ResidualGrammar, first: seq<set<nat>>, a: Automaton, m: nat, item: LrItem)
    requires AutomatonFor(g, first, a) && m < |a.states| && item in a.states[m] && Demand(g, a, m, item).Some?
    ensures ActionFrom(g, a, m, Demand(g, a, m, item).value.0, Demand(g, a, m, item).value.1)
  {
    assert ItemInRange(g, item);
    if Next(AugmentedProductions(g), item).None? {
      assert IsFinished(g, item, item.production);
    }
  }

  // The items answered before stay so, and one more is.
  lemma OneMoreAnswered(g: ResidualGrammar, a: Automaton, m: nat, done: set<LrItem>, item: LrItem,
      actions: map<Lookahead, Action>, gotos: map<nat, nat>, told: seq<Conflict>,
      actions': map<Lookahead, Action>, gotos': map<nat, nat>, told': seq<Conflict>)
    requires Served(g, a, m, done, actions, gotos, told) && told <= told'
    requires (forall l <- actions :: l in actions' && actions'[l] == actions[l])
    requires (forall n <- gotos :: n in gotos' && gotos'[n] == gotos[n])
    requires Answered(g, a, m, item, actions', gotos', told')
    ensures Served(g, a, m, done + {item}, actions', gotos', told')
  {
    hide ConflictOf;
    forall i <- done + {item} ensures Answered(g, a, m, i, actions', gotos', told') {
      assert i in done ==> Answered(g, a, m, i, actions, gotos, told);
    }
  }

  lemma ItemEdge(g: ResidualGrammar, first: seq<set<nat>>, a: Automaton, m: nat, item: LrItem)
    requires AutomatonFor(g, first, a) && m < |a.states| && item in a.states[m]
    ensures match Next(AugmentedProductions(g), item)
            case Some(s) => (m, s) in a.edges && (s.Nonterminal? <==> Demand(g, a, m, item).None?)
            case None => Demand(g, a, m, item).Some?
  {
    assert Next(AugmentedProductions(g), item).Some? ==> EdgeFor(g, a, m, item);
  }

  lemma GotoKept(g: ResidualGrammar, a: Automaton, m: nat, actions: map<Lookahead, Action>, gotos: map<nat, nat>,
      n: nat)
    requires m < |a.states| && RowSound(g, a, m, actions, gotos) && (m, Nonterminal(n)) in a.edges
    ensures RowSound(g, a, m, actions, gotos[n := a.edges[(m, Nonterminal(n))]])
    ensures n in gotos ==> gotos[n] == a.edges[(m, Nonterminal(n))]
  {
  }

  lemma GotoServes(g: ResidualGrammar, a: Automaton, m: nat, item: LrItem, actions: map<Lookahead, Action>,
      gotos: map<nat, nat>, told: seq<Conflict>)
    requires Next(AugmentedProductions(g), item).Some? && Next(AugmentedProductions(g), item).value.Nonterminal?
    requires var n := Next(AugmentedProductions(g), item).value.id;
             (m, Nonterminal(n)) in a.edges && n in gotos && gotos[n] == a.edges[(m, Nonterminal(n))]
    ensures Answered(g, a, m, item, actions, gotos, told)
  {
  }

  lemma ConflictsKept(g: ResidualGrammar, a: Automaton, m: nat, was: map<Lookahead, Action>,
      now: map<Lookahead, Action>, gotos: map<nat, nat>, base: seq<Conflict>, old_: seq<Conflict>,
      new_: seq<Conflict>, item: LrItem, l: Lookahead, action: Action)
    requires m < |a.states| && item in a.states[m] && Demand(g, a, m, item) == Some((l, action))
    requires base <= old_ && (forall c <- old_[|base|..] :: ConflictReal(g, a, m, was, c))
    requires now == if l in was then was else was[l := action]
    requires new_ == (if l in was && was[l] != action
                      then old_ + [Conflict(KindOf(was[l], action), m, l, was[l], action)] else old_)
    ensures base <= new_ && (forall c <- new_[|base|..] :: ConflictReal(g, a, m, now, c))
    ensures old_[|base|..] <= new_[|base|..] && Answered(g, a, m, item, now, gotos, new_[|base|..])
  {
    hide RowServes, ActionFrom;
    forall c <- new_[|base|..] ensures ConflictReal(g, a, m, now, c) {
      if c in old_[|base|..] {
        assert ConflictReal(g, a, m, was, c);
      } else {
        assert c == new_[|new_| - 1];
      }
    }
    DemandServed(g, a, m, item, now, gotos);
    if now[l] != action {
      assert new_[|new_| - 1] in new_[|base|..];
    }
  }

  // An item whose place is taken by another action.
  lemma OneMoreUnserved(g: ResidualGrammar, a: Automaton, m: nat, actions: map<Lookahead, Action>, gotos: map<nat, nat>,
      l: Lookahead, item: LrItem, action: Action)
    requires m < |a.states| && RowSound(g, a, m, actions, gotos) && item in a.states[m]
    requires Demand(g, a, m, item) == Some((l, action)) && l in actions && actions[l] != action
    ensures Unserved(g, a, (m, item))
  {
    hide Demand, ActionFrom;
    var c := Conflict(KindOf(actions[l], action), m, l, actions[l], action);
    assert ConflictAt(g, a, actions, c);
    assert ConflictOf(g, a, (m, item), c);
  }

  // One conflict too many.
  lemma ConflictOver(g: ResidualGrammar, a: Automaton, limits: CompileLimits, sources: seq<(nat, LrItem)>)
    requires Distinct(sources) && (forall x <- sources :: Unserved(g, a, x))
    requires |sources| > limits.maxReportedConflicts
    ensures TableOver(g, a, limits,
            ResourceLimitExceeded(LalrTableStage, |sources|, limits.maxReportedConflicts))
  {
    hide Unserved;
  }

  // The conflicts of a row under construction: real ones, each about an item of its own that is done.
  ghost predicate RowTold(g: ResidualGrammar, a: Automaton, m: nat, done: set<LrItem>, actions: map<Lookahead, Action>,
      base: seq<Conflict>, conflicts: seq<Conflict>, sources: seq<(nat, LrItem)>)
    requires m < |a.states|
  {
    && base <= conflicts && (forall c <- conflicts[|base|..] :: ConflictReal(g, a, m, actions, c))
    && Sourced(g, a, m + 1, conflicts, sources) && forall x <- sources :: x.0 == m ==> x.1 in done
  }

  lemma ToldMore(g: ResidualGrammar, a: Automaton, m: nat, done: set<LrItem>, more: set<LrItem>,
      actions: map<Lookahead, Action>, base: seq<Conflict>, conflicts: seq<Conflict>, sources: seq<(nat, LrItem)>)
    requires m < |a.states| && RowTold(g, a, m, done, actions, base, conflicts, sources) && done <= more
    ensures RowTold(g, a, m, more, actions, base, conflicts, sources)
  {
    hide ConflictReal, Unserved;
  }

  lemma NothingTold(g: ResidualGrammar, a: Automaton, m: nat, conflicts: seq<Conflict>, sources: seq<(nat, LrItem)>)
    requires m < |a.states| && Sourced(g, a, m, conflicts, sources)
    ensures RowTold(g, a, m, {}, map[], conflicts, conflicts, sources)
    ensures Served(g, a, m, {}, map[], map[], conflicts[|conflicts|..])
  {
    hide Unserved;
  }

  lemma ToldFacts(g: ResidualGrammar, a: Automaton, m: nat, done: set<LrItem>, actions: map<Lookahead, Action>,
      base: seq<Conflict>, conflicts: seq<Conflict>, sources: seq<(nat, LrItem)>)
    requires m < |a.states| && RowTold(g, a, m, done, actions, base, conflicts, sources)
    ensures base <= conflicts && (forall c <- conflicts[|base|..] :: ConflictReal(g, a, m, actions, c))
    ensures Sourced(g, a, m + 1, conflicts, sources)
  {
  }

  // The item of a new conflict is new among those told of.
  lemma OneMoreSource(g: ResidualGrammar, a: Automaton, m: nat, done: set<LrItem>, item: LrItem,
      conflicts: seq<Conflict>, sources: seq<(nat, LrItem)>, c: Conflict)
    requires Sourced(g, a, m + 1, conflicts, sources) && (forall x <- sources :: x.0 == m ==> x.1 in done)
    requires item !in done && Unserved(g, a, (m, item))
    ensures Sourced(g, a, m + 1, conflicts + [c], sources + [(m, item)])
    ensures forall x <- sources + [(m, item)] :: x.0 == m ==> x.1 in done + {item}
  {
    hide Unserved;
  }

  // The demand of one item: granted, granted already, or told of.
  method PlaceDemand(g: ResidualGrammar, ghost first: seq<set<nat>>, a: Automaton, m: nat, item: LrItem,
      limits: CompileLimits, actions0: map<Lookahead, Action>, ghost gotos: map<nat, nat>,
      ghost base: seq<Conflict>, conflicts0: seq<Conflict>, ghost sources0: seq<(nat, LrItem)>,
      ghost done: set<LrItem>)
    returns (actions: map<Lookahead, Action>, conflicts: seq<Conflict>, ghost sources: seq<(nat, LrItem)>,
      error: Option<CompileError>)
    requires AutomatonFor(g, first, a) && m < |a.states| && item in a.states[m] - done
    requires Demand(g, a, m, item).Some?
    requires RowSound(g, a, m, actions0, gotos) && RowTold(g, a, m, done, actions0, base, conflicts0, sources0)
    ensures error.Some? ==> TableOver(g, a, limits, error.value)
    ensures error.None? ==>
              && RowSound(g, a, m, actions, gotos)
              && (forall l <- actions0 :: l in actions && actions[l] == actions0[l])
              && RowTold(g, a, m, done + {item}, actions, base, conflicts, sources)
              && conflicts0[|base|..] <= conflicts[|base|..]
              && (conflicts == conflicts0 || |conflicts| <= limits.maxReportedConflicts)
              && Answered(g, a, m, item, actions, gotos, conflicts[|base|..])
  {
    hide AutomatonFor, Demand, ActionFrom, TableOver, Unserved, Answered, ConflictReal, Sourced;
    var (l, action) := Demand(g, a, m, item).value;
    DemandSound(g, first, a, m, item);
    actions, conflicts, error := InsertAction(actions0, m, l, action, conflicts0, limits);
    sources := sources0;
    if l in actions0 && actions0[l] != action {
      OneMoreUnserved(g, a, m, actions0, gotos, l, item, action);
      OneMoreSource(g, a, m, done, item, conflicts0, sources0,
        Conflict(KindOf(actions0[l], action), m, l, actions0[l], action));
      sources := sources + [(m, item)];
    }
    if error.Some? {
      SourcesOver(g, a, limits, conflicts0 + [Conflict(KindOf(actions0[l], action), m, l, actions0[l], action)],
        m + 1, sources);
      return;
    }
    ConflictsKept(g, a, m, actions0, actions, gotos, base, conflicts0, conflicts, item, l, action);
  }

  lemma SourcesOver(g: ResidualGrammar, a: Automaton, limits: CompileLimits, conflicts: seq<Conflict>, upto: nat,
      sources: seq<(nat, LrItem)>)
    requires Sourced(g, a, upto, conflicts, sources) && |conflicts| > limits.maxReportedConflicts
    ensures TableOver(g, a, limits,
            ResourceLimitExceeded(LalrTableStage, |conflicts|, limits.maxReportedConflicts))
  {
    hide Unserved;
    ConflictOver(g, a, limits, sources);
  }

  method BuildRow(g: ResidualGrammar, ghost first: seq<set<nat>>, a: Automaton, m: nat, limits: CompileLimits,
      conflicts0: seq<Conflict>, ghost sources0: seq<(nat, LrItem)>)
    returns (actions: map<Lookahead, Action>, gotos: map<nat, nat>, conflicts: seq<Conflict>,
      ghost sources: seq<(nat, LrItem)>, error: Option<CompileError>)
    requires AutomatonFor(g, first, a) && m < |a.states| && Sourced(g, a, m, conflicts0, sources0)
    ensures error.Some? ==> TableOver(g, a, limits, error.value)
    ensures error.None? ==>
              && conflicts0 <= conflicts && Sourced(g, a, m + 1, conflicts, sources)
              && (conflicts == conflicts0 || |conflicts| <= limits.maxReportedConflicts)
              && RowSound(g, a, m, actions, gotos)
              && Served(g, a, m, a.states[m], actions, gotos, conflicts[|conflicts0|..])
              && (forall c <- conflicts[|conflicts0|..] :: ConflictReal(g, a, m, actions, c))
  {
    hide AutomatonFor, Demand, ActionFrom, TableOver, Answered, ConflictReal, Served, Sourced, RowTold;
    actions, gotos, conflicts, sources, error := map[], map[], conflicts0, sources0, None;
    NothingTold(g, a, m, conflicts, sources);
    var todo := a.states[m];
    ghost var done: set<LrItem> := {};
    while todo != {}
      invariant todo !! done && todo + done == a.states[m] && error.None?
      invariant conflicts == conflicts0 || |conflicts| <= limits.maxReportedConflicts
      invariant RowSound(g, a, m, actions, gotos) && RowTold(g, a, m, done, actions, conflicts0, conflicts, sources)
      invariant |conflicts0| <= |conflicts| && Served(g, a, m, done, actions, gotos, conflicts[|conflicts0|..])
    {
      var item :| item in todo;
      ghost var before := (actions, gotos, conflicts[|conflicts0|..]);
      ItemEdge(g, first, a, m, item);
      match Next(AugmentedProductions(g), item) {
        case Some(Nonterminal(n)) =>
          GotoKept(g, a, m, actions, gotos, n);
          gotos := gotos[n := a.edges[(m, Nonterminal(n))]];
          GotoServes(g, a, m, item, actions, gotos, conflicts[|conflicts0|..]);
          ToldMore(g, a, m, done, done + {item}, actions, conflicts0, conflicts, sources);
        case _ =>
          actions, conflicts, sources, error :=
            PlaceDemand(g, first, a, m, item, limits, actions, gotos, conflicts0, conflicts, sources, done);
          if error.Some? {
            return;
          }
          ToldFacts(g, a, m, done + {item}, actions, conflicts0, conflicts, sources);
      }
      OneMoreAnswered(g, a, m, done, item, before.0, before.1, before.2, actions, gotos, conflicts[|conflicts0|..]);
      todo := todo - {item};
      done := done + {item};
    }
    assert done == a.states[m];
    ToldFacts(g, a, m, done, actions, conflicts0, conflicts, sources);
  }

  ghost predicate RowsSound(g: ResidualGrammar, a: Automaton, upto: nat, actions: seq<map<Lookahead, Action>>,
      gotos: seq<map<nat, nat>>, conflicts: seq<Conflict>)
  {
    && |actions| == |gotos| == upto <= |a.states|
    && (forall m :: 0 <= m < upto ==> RowSound(g, a, m, actions[m], gotos[m])
                                      && Served(g, a, m, a.states[m], actions[m], gotos[m], conflicts))
    && (forall c <- conflicts :: c.state < upto && ConflictReal(g, a, c.state, actions[c.state], c))
  }

  lemma RowAdded(g: ResidualGrammar, a: Automaton, m: nat, actions: seq<map<Lookahead, Action>>,
      gotos: seq<map<nat, nat>>, old_: seq<Conflict>, row: map<Lookahead, Action>, gotoRow: map<nat, nat>,
      new_: seq<Conflict>)
    requires m < |a.states| && RowsSound(g, a, m, actions, gotos, old_) && old_ <= new_
    requires RowSound(g, a, m, row, gotoRow) && Served(g, a, m, a.states[m], row, gotoRow, new_[|old_|..])
    requires forall c <- new_[|old_|..] :: ConflictReal(g, a, m, row, c)
    ensures RowsSound(g, a, m + 1, actions + [row], gotos + [gotoRow], new_)
  {
    hide RowSound, RowServes, ConflictReal, ConflictOf;
    assert new_ == old_ + new_[|old_|..];
    forall c <- new_ ensures c.state < m + 1 && ConflictReal(g, a, c.state, (actions + [row])[c.state], c) {
      if c in new_[|old_|..] {
        ConflictState(g, a, m, row, c);
      } else {
        assert c in old_;
      }
    }
  }

  lemma ConflictState(g: ResidualGrammar, a: Automaton, m: nat, row: map<Lookahead, Action>, c: Conflict)
    requires m < |a.states| && ConflictReal(g, a, m, row, c)
    ensures c.state == m
  {
  }

  lemma TableFromRows(g: ResidualGrammar, first: seq<set<nat>>, a: Automaton, actions: seq<map<Lookahead, Action>>,
      gotos: seq<map<nat, nat>>, conflicts: seq<Conflict>)
    requires AutomatonFor(g, first, a) && RowsSound(g, a, |a.states|, actions, gotos, conflicts)
    ensures TableSound(g, a, LalrTable(actions, gotos)) && AllAnswered(g, a, LalrTable(actions, gotos), conflicts)
    ensures conflicts == [] <==> TableComplete(g, a, LalrTable(actions, gotos))
    ensures forall c <- conflicts :: c.state < |a.states| && ConflictAt(g, a, actions[c.state], c)
  {
    hide AutomatonFor, ActionFrom;
    forall m: nat, n: nat | m < |a.states| && Awaits(g, a.states[m], n) ensures n in gotos[m] {
      var item :| item in a.states[m] && Next(AugmentedProductions(g), item) == Some(Nonterminal(n));
      assert Served(g, a, m, a.states[m], actions[m], gotos[m], conflicts);
      assert Answered(g, a, m, item, actions[m], gotos[m], conflicts);
    }
    if conflicts != [] {
      var c := conflicts[0];
      assert ConflictReal(g, a, c.state, actions[c.state], c);
      var item :| item in a.states[c.state] && Demand(g, a, c.state, item) == Some((c.lookahead, c.second));
      DemandServed(g, a, c.state, item, actions[c.state], gotos[c.state]);
    }
  }

  // The entries and the conflicts are within their limits.
  predicate TableWithin(table: LalrTable, conflicts: seq<Conflict>, limits: CompileLimits) {
    && EntryCount(table.actions) <= limits.maxActionEntries && EntryCount(table.gotos) <= limits.maxGotoEntries
    && |conflicts| <= limits.maxReportedConflicts
  }

  method BuildTable(g: ResidualGrammar, ghost first: seq<set<nat>>, a: Automaton, limits: CompileLimits)
    returns (table: LalrTable, conflicts: seq<Conflict>, error: Option<CompileError>)
    requires AutomatonFor(g, first, a)
    ensures error.Some? ==> TableOver(g, a, limits, error.value)
    ensures error.None? ==> TableSound(g, a, table) && (conflicts == [] <==> TableComplete(g, a, table))
    ensures error.None? ==> AllAnswered(g, a, table, conflicts) && TableWithin(table, conflicts, limits)
    ensures error.None? ==> |table.actions| == |a.states| && forall c <- conflicts ::
                              c.state < |a.states| && ConflictAt(g, a, table.actions[c.state], c)
  {
    hide AutomatonFor, RowsSound, TableOver, Sourced, AllAnswered;
    var actions: seq<map<Lookahead, Action>>, gotos: seq<map<nat, nat>> := [], [];
    ghost var sources: seq<(nat, LrItem)> := [];
    conflicts, error := [], None;
    table := LalrTable([], []);
    var m := 0;
    NoRows(g, a);
    while m < |a.states|
      invariant 0 <= m <= |a.states| && error.None?
      invariant RowsSound(g, a, m, actions, gotos, conflicts) && Sourced(g, a, m, conflicts, sources)
      invariant |conflicts| <= limits.maxReportedConflicts
    {
      ghost var before := conflicts;
      var row: map<Lookahead, Action>, gotoRow: map<nat, nat>;
      row, gotoRow, conflicts, sources, error := BuildRow(g, first, a, m, limits, conflicts, sources);
      if error.Some? {
        return;
      }
      RowAdded(g, a, m, actions, gotos, before, row, gotoRow, conflicts);
      actions, gotos := actions + [row], gotos + [gotoRow];
      m := m + 1;
    }
    table := LalrTable(actions, gotos);
    TableFromRows(g, first, a, actions, gotos, conflicts);
    EntriesOverLimits(g, a, table, limits);
    if EntryCount(actions) > limits.maxActionEntries {
      error := Some(ResourceLimitExceeded(LalrTableStage, EntryCount(actions), limits.maxActionEntries));
    } else if EntryCount(gotos) > limits.maxGotoEntries {
      error := Some(ResourceLimitExceeded(LalrTableStage, EntryCount(gotos), limits.maxGotoEntries));
    }
  }

  lemma EntriesOverLimits(g: ResidualGrammar, a: Automaton, table: LalrTable, limits: CompileLimits)
    requires TableSound(g, a, table)
    ensures var n := EntryCount(table.actions);
            n > limits.maxActionEntries ==>
              TableOver(g, a, limits, ResourceLimitExceeded(LalrTableStage, n, limits.maxActionEntries))
    ensures var n := EntryCount(table.gotos);
            n > limits.maxGotoEntries ==>
              TableOver(g, a, limits, ResourceLimitExceeded(LalrTableStage, n, limits.maxGotoEntries))
  {
    hide TableSound, ManyUnserved;
    var n, k := EntryCount(table.actions), EntryCount(table.gotos);
    assert EntriesOver(table, limits, ResourceLimitExceeded(LalrTableStage, n, limits.maxActionEntries));
    assert EntriesOver(table, limits, ResourceLimitExceeded(LalrTableStage, k, limits.maxGotoEntries));
  }


  lemma NoRows(g: ResidualGrammar, a: Automaton)
    ensures RowsSound(g, a, 0, [], [], []) && Sourced(g, a, 0, [], [])
  {
  }

  // ---------- The whole construction ----------

  ghost predicate BuiltOver(c: CompiledLalr, first: seq<set<nat>>, a: Automaton) {
    && c.productions == AugmentedProductions(c.grammar)
    && AutomatonFor(c.grammar, first, a)
    && TableSound(c.grammar, a, c.table)
    && (c.conflicts == [] <==> TableComplete(c.grammar, a, c.table))
    && (c.lexicalSafe <==> LexicalSafety.Safe(c.grammar.terminals))
  }

  ghost predicate WellBuilt(c: CompiledLalr) {
    exists first, a :: BuiltOver(c, first, a)
  }

  predicate IsUsable(c: CompiledLalr) {
    c.conflicts == [] && c.lexicalSafe
  }

  // Conflicts are reported exactly when the grammar is not LALR(1), each as one of the grammar's and of its kind.  The
  // only errors are limits that the grammar's own construction goes over; in particular merged transitions never
  // disagree.
  method Build(g: ResidualGrammar, limits: CompileLimits) returns (r: Result<CompiledLalr>)
    requires WellFormed(g)
    ensures r.Ok? ==> WellBuilt(r.value) && r.value.grammar == g
    ensures r.Ok? ==> (r.value.conflicts == [] <==> !HasConflict(g)) && forall c <- r.value.conflicts :: Reported(g, c)
    ensures r.Ok? ==> forall l :: (exists c <- r.value.conflicts :: c.lookahead == l) <==> ClashUnder(g, l)
    ensures r.Ok? ==> TableWithin(r.value.table, r.value.conflicts, limits)
    ensures r.Ok? ==> |r.value.table.actions| <= limits.maxLrStates
    ensures r.Ok? ==> forall n: nat :: ManyStates(g, n) ==> n <= limits.maxLrStates
    ensures r.Err? ==> OverLimit(g, limits, r.error)
  {
    hide WellFormed, FirstClosed, LeastSoFar, Collection, Expanded, Merged, EdgesKept, EdgesOnly, AutomatonFor,
      TableSound, TableComplete, OverLimit, HasConflict, Reported, CoresOver, TableOver, ConflictAt, Canonical,
      Distinct, ClashUnder, AllAnswered, TableWithin, ManyStates;
    var first := ComputeFirst(g);
    assert FirstKnown(g, first) by { FirstClosedKnown(g, first); }
    var canonical, transitions, error := CollectStates(g, first, limits);
    if error.Some? {
      return Err(error.value);
    }
    var merged, mapping: seq<nat>;
    merged, mapping, error := MergeCores(canonical, limits);
    if error.Some? {
      CoresOverIsOver(g, first, canonical, limits, error.value);
      return Err(error.value);
    }
    var edges;
    edges, error := MergeEdges(g, first, canonical, transitions, merged, mapping);
    var a := Automaton(merged, edges);
    assert Assembled(g, first, canonical, transitions, mapping, a);
    AssembledAutomaton(g, first, canonical, transitions, mapping, a);
    assert Constructed(g, first, canonical, transitions, mapping, a);
    var table, conflicts;
    table, conflicts, error := BuildTable(g, first, a, limits);
    if error.Some? {
      TableOverIsOver(g, first, canonical, transitions, mapping, a, limits, error.value);
      return Err(error.value);
    }
    TableAnswers(g, first, canonical, transitions, mapping, a, table, conflicts);
    AssembledFacts(g, first, canonical, transitions, mapping, a);
    forall n: nat | ManyStates(g, n) ensures n <= limits.maxLrStates {
      StatesBound(g, first, canonical, transitions, mapping, a, n);
    }
    var safe := LexicalSafety.LexicallySafe(g.terminals);
    var compiled := CompiledLalr(g, AugmentedProductions(g), table, conflicts, safe);
    assert BuiltOver(compiled, first, a);
    r := Ok(compiled);
  }

  lemma FirstClosedKnown(g: ResidualGrammar, first: seq<set<nat>>)
    requires FirstClosed(g, first)
    ensures FirstKnown(g, first)
  {
  }
}
