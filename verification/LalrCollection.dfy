/**
 Closures, cores, and the collection of canonical states: what the construction loops must establish so
 that merging equal cores yields an automaton.
 */
module LalrCollection {
  import opened Grammars
  import opened ResidualGrammars
  import opened Lalr

  // ---------- Closures ----------

  ghost predicate ClosedUnder(g: ResidualGrammar, first: seq<set<nat>>, k: iset<LrItem>)
    requires FirstKnown(g, first)
  {
    forall item, p: nat, l :: item in k && ItemInRange(g, item) && Expands(g, first, item, p, l) ==>
      LrItem(p, 0, l) in k
  }

  ghost predicate Covers(k: iset<LrItem>, items: set<LrItem>) {
    forall item <- items :: item in k
  }

  // `items` is the least closed set over `seed`.
  ghost predicate IsClosure(g: ResidualGrammar, first: seq<set<nat>>, seed: set<LrItem>, items: set<LrItem>)
    requires FirstKnown(g, first)
  {
    && seed <= items
    && (forall item <- items :: ItemInRange(g, item))
    && ClosedUnder(g, first, iset item | item in items)
    && forall k: iset<LrItem> :: Covers(k, seed) && ClosedUnder(g, first, k) ==> Covers(k, items)
  }

  // Only items at their start are added.
  lemma AddedAtStart(g: ResidualGrammar, first: seq<set<nat>>, seed: set<LrItem>, items: set<LrItem>, item: LrItem)
    requires FirstKnown(g, first) && IsClosure(g, first, seed, items) && item in items
    ensures item in seed || item.dot == 0
  {
    var k := iset i: LrItem | i in seed || i.dot == 0;
    assert Covers(k, seed) && ClosedUnder(g, first, k);
  }

  // The start item is never added.
  lemma StartNotAdded(g: ResidualGrammar, first: seq<set<nat>>, seed: set<LrItem>, items: set<LrItem>, item: LrItem)
    requires FirstKnown(g, first) && IsClosure(g, first, seed, items) && item in items
    requires item.production == |g.productions|
    ensures item in seed
  {
    var k := iset i: LrItem | i in seed || i.production < |g.productions|;
    assert Covers(k, seed) && ClosedUnder(g, first, k);
  }

  // Every item has an expansion chain from the seed.
  lemma ClosureExplained(g: ResidualGrammar, first: seq<set<nat>>, seed: set<LrItem>, items: set<LrItem>, item: LrItem)
    requires FirstKnown(g, first) && IsClosure(g, first, seed, items) && item in items
    requires forall s <- seed :: s.dot > 0 || s.production == |g.productions|
    ensures Explained(g, items, item)
  {
    var k := iset i: LrItem | i in items && Explained(g, items, i);
    forall s <- seed ensures s in k {
      assert Chained(g, items, [s]);
    }
    forall i, p: nat, l | i in k && ItemInRange(g, i) && Expands(g, first, i, p, l) ensures LrItem(p, 0, l) in k {
      var chain: seq<LrItem> :| Chained(g, items, chain) && chain[|chain| - 1] == i;
      var next := LrItem(p, 0, l);
      assert i in (iset item | item in items);
      assert next in items;
      assert LinkedItems(g, items, i, next);
      ChainExtends(g, items, chain, next);
    }
    assert Covers(k, seed) && ClosedUnder(g, first, k);
  }

  lemma ChainExtends(g: ResidualGrammar, items: set<LrItem>, chain: seq<LrItem>, next: LrItem)
    requires Chained(g, items, chain) && LinkedItems(g, items, chain[|chain| - 1], next)
    ensures Explained(g, items, next)
  {
    var longer := chain + [next];
    forall i | 0 < i < |longer| ensures LinkedItems(g, items, longer[i - 1], longer[i]) {
      if i < |chain| {
        assert LinkedItems(g, items, chain[i - 1], chain[i]);
      }
    }
    assert Chained(g, items, longer) && longer[|longer| - 1] == next;
  }

  lemma ExplainedGrows(g: ResidualGrammar, small: set<LrItem>, big: set<LrItem>, item: LrItem)
    requires Explained(g, small, item) && small <= big
    ensures Explained(g, big, item)
  {
    var chain: seq<LrItem> :| Chained(g, small, chain) && chain[|chain| - 1] == item;
    forall i | 0 < i < |chain| ensures LinkedItems(g, big, chain[i - 1], chain[i]) {
      assert LinkedItems(g, small, chain[i - 1], chain[i]);
    }
    assert Chained(g, big, chain);
  }

  // ---------- Cores ----------

  function Core(items: set<LrItem>): set<(nat, nat)> {
    set item <- items :: (item.production, item.dot)
  }

  lemma InCore(items: set<LrItem>, item: LrItem)
    requires item in items
    ensures (item.production, item.dot) in Core(items)
  {
  }

  lemma FromCore(items: set<LrItem>, c: (nat, nat)) returns (item: LrItem)
    requires c in Core(items)
    ensures item in items && item.production == c.0 && item.dot == c.1
  {
    item :| item in items && (item.production, item.dot) == c;
  }

  // Whether an item expands at all depends on its core only.
  lemma TailsTogether(g: ResidualGrammar, first: seq<set<nat>>, i: LrItem, j: LrItem, p: nat, l: Lookahead)
      returns (k: Lookahead)
    requires FirstKnown(g, first) && ItemInRange(g, i) && ItemInRange(g, j)
    requires i.production == j.production && i.dot == j.dot && Expands(g, first, i, p, l)
    ensures Expands(g, first, j, p, k)
  {
    RhsKnown(g, first, i.production, i.dot + 1);
    var tail := AugmentedProductions(g)[i.production].rhs[i.dot + 1..];
    if l.On? && l.terminal in FirstOf(g.nullable, first, tail) {
      k := l;
    } else {
      k := j.lookahead;
    }
  }

  // Closing sets with the same core gives sets with the same core.
  lemma ClosureCore(g: ResidualGrammar, first: seq<set<nat>>, s: set<LrItem>, i: set<LrItem>, t: set<LrItem>,
      j: set<LrItem>)
    requires FirstKnown(g, first) && IsClosure(g, first, s, i) && IsClosure(g, first, t, j) && Core(s) <= Core(t)
    ensures Core(i) <= Core(j)
  {
    var k := iset x: LrItem | (x.production, x.dot) in Core(j);
    forall x <- s ensures x in k {
      InCore(s, x);
      var y := FromCore(t, (x.production, x.dot));
      InCore(j, y);
    }
    forall x, p: nat, l | x in k && ItemInRange(g, x) && Expands(g, first, x, p, l) ensures LrItem(p, 0, l) in k {
      var y := FromCore(j, (x.production, x.dot));
      var l' := TailsTogether(g, first, x, y, p, l);
      assert y in (iset item | item in j);
      assert LrItem(p, 0, l') in j;
      InCore(j, LrItem(p, 0, l'));
    }
    assert Covers(k, s) && ClosedUnder(g, first, k);
    forall c <- Core(i) ensures c in Core(j) {
      var x := FromCore(i, c);
      assert x in k;
    }
  }

  // ---------- Gotos ----------

  function MovedOver(ps: seq<Production>, items: set<LrItem>, s: Symbol): set<LrItem> {
    set item <- items | Next(ps, item) == Some(s) :: Moved(item)
  }

  lemma MovedCore(ps: seq<Production>, i: set<LrItem>, j: set<LrItem>, s: Symbol)
    requires Core(i) <= Core(j)
    ensures Core(MovedOver(ps, i, s)) <= Core(MovedOver(ps, j, s))
  {
    forall c <- Core(MovedOver(ps, i, s)) ensures c in Core(MovedOver(ps, j, s)) {
      var m := FromCore(MovedOver(ps, i, s), c);
      var x :| x in i && Next(ps, x) == Some(s) && Moved(x) == m;
      InCore(i, x);
      var y := FromCore(j, (x.production, x.dot));
      assert Moved(y) in MovedOver(ps, j, s);
      InCore(MovedOver(ps, j, s), Moved(y));
    }
  }

  // ---------- The collection ----------

  ghost predicate StateSeed(g: ResidualGrammar, c: nat, seed: set<LrItem>) {
    if c == 0 then seed == {StartItem(g)} else seed != {} && forall s <- seed :: s.dot > 0
  }

  ghost predicate StateClosure(g: ResidualGrammar, first: seq<set<nat>>, c: nat, items: set<LrItem>)
    requires FirstKnown(g, first)
  {
    exists seed :: StateSeed(g, c, seed) && IsClosure(g, first, seed, items)
  }

  ghost predicate Transition(g: ResidualGrammar, first: seq<set<nat>>, canonical: seq<set<LrItem>>, e: (nat, Symbol),
      target: nat)
    requires FirstKnown(g, first)
  {
    && e.0 < |canonical| && target < |canonical|
    && Expects(g, canonical[e.0], e.1)
    && IsClosure(g, first, MovedOver(AugmentedProductions(g), canonical[e.0], e.1), canonical[target])
  }

  ghost predicate Expects(g: ResidualGrammar, items: set<LrItem>, s: Symbol) {
    exists item :: item in items && Next(AugmentedProductions(g), item) == Some(s)
  }

  ghost predicate Collection(g: ResidualGrammar, first: seq<set<nat>>, canonical: seq<set<LrItem>>,
      transitions: map<(nat, Symbol), nat>)
    requires FirstKnown(g, first)
  {
    && 0 < |canonical|
    && (forall c: nat :: c < |canonical| ==> StateClosure(g, first, c, canonical[c]))
    && (forall e <- transitions :: Transition(g, first, canonical, e, transitions[e]))
  }

  ghost predicate Expanded(g: ResidualGrammar, canonical: seq<set<LrItem>>, transitions: map<(nat, Symbol), nat>,
      c: nat)
    requires c < |canonical|
  {
    forall s :: Expects(g, canonical[c], s) ==> (c, s) in transitions
  }

  // Equal cores, equal transition targets up to core.
  lemma TargetsTogether(g: ResidualGrammar, first: seq<set<nat>>, canonical: seq<set<LrItem>>, c: nat, d: nat,
      s: Symbol, t: nat, u: nat)
    requires FirstKnown(g, first) && Transition(g, first, canonical, (c, s), t)
    requires Transition(g, first, canonical, (d, s), u)
    requires Core(canonical[c]) == Core(canonical[d])
    ensures Core(canonical[t]) == Core(canonical[u])
  {
    var ps := AugmentedProductions(g);
    MovedCore(ps, canonical[c], canonical[d], s);
    MovedCore(ps, canonical[d], canonical[c], s);
    ClosureCore(g, first, MovedOver(ps, canonical[c], s), canonical[t], MovedOver(ps, canonical[d], s), canonical[u]);
    ClosureCore(g, first, MovedOver(ps, canonical[d], s), canonical[u], MovedOver(ps, canonical[c], s), canonical[t]);
  }

  // ---------- Merging ----------

  // States with equal cores, and only those, are merged; a merged state is the union of its members.
  ghost predicate Merged(canonical: seq<set<LrItem>>, upto: nat, merged: seq<set<LrItem>>, mapping: seq<nat>) {
    && |mapping| == upto <= |canonical|
    && (forall c :: 0 <= c < upto ==> mapping[c] < |merged| && canonical[c] <= merged[mapping[c]])
    && (forall c, d :: 0 <= c < upto && 0 <= d < upto ==>
          (mapping[c] == mapping[d] <==> Core(canonical[c]) == Core(canonical[d])))
    && (forall m: nat, item :: m < |merged| && item in merged[m] ==> MemberOf(canonical, upto, mapping, m, item))
    && (upto > 0 ==> mapping[0] == 0)
  }

  ghost predicate MemberOf(canonical: seq<set<LrItem>>, upto: nat, mapping: seq<nat>, m: nat, item: LrItem)
    requires |mapping| == upto <= |canonical|
  {
    exists c :: 0 <= c < upto && mapping[c] == m && item in canonical[c]
  }

  ghost predicate EdgesKept(transitions: map<(nat, Symbol), nat>, mapping: seq<nat>, edges: map<(nat, Symbol), nat>) {
    forall e <- transitions :: e.0 < |mapping| && transitions[e] < |mapping|
      && (mapping[e.0], e.1) in edges && edges[(mapping[e.0], e.1)] == mapping[transitions[e]]
  }

  ghost predicate EdgesOnly(transitions: map<(nat, Symbol), nat>, mapping: seq<nat>, edges: map<(nat, Symbol), nat>) {
    forall f <- edges :: exists e :: e in transitions && CarriedTo(transitions, mapping, edges, e, f)
  }

  ghost predicate CarriedTo(transitions: map<(nat, Symbol), nat>, mapping: seq<nat>, edges: map<(nat, Symbol), nat>,
      e: (nat, Symbol), f: (nat, Symbol))
    requires e in transitions && f in edges
  {
    && e.0 < |mapping| && transitions[e] < |mapping|
    && f == (mapping[e.0], e.1) && edges[f] == mapping[transitions[e]]
  }

  ghost predicate Assembled(g: ResidualGrammar, first: seq<set<nat>>, canonical: seq<set<LrItem>>,
      transitions: map<(nat, Symbol), nat>, mapping: seq<nat>, a: Automaton)
  {
    && WellFormed(g) && FirstClosed(g, first)
    && Collection(g, first, canonical, transitions)
    && (forall c: nat :: c < |canonical| ==> Expanded(g, canonical, transitions, c))
    && Merged(canonical, |canonical|, a.states, mapping)
    && EdgesKept(transitions, mapping, a.edges)
    && EdgesOnly(transitions, mapping, a.edges)
  }

  lemma MemberFacts(g: ResidualGrammar, first: seq<set<nat>>, canonical: seq<set<LrItem>>,
      transitions: map<(nat, Symbol), nat>, mapping: seq<nat>, a: Automaton, m: nat, item: LrItem)
      returns (c: nat, seed: set<LrItem>)
    requires Assembled(g, first, canonical, transitions, mapping, a) && m < |a.states| && item in a.states[m]
    ensures c < |canonical| == |mapping| && mapping[c] == m && item in canonical[c] && canonical[c] <= a.states[m]
    ensures StateSeed(g, c, seed) && IsClosure(g, first, seed, canonical[c])
    ensures m == 0 ==> Core(canonical[c]) == Core(canonical[0])
  {
    assert MemberOf(canonical, |canonical|, mapping, m, item);
    c :| 0 <= c < |canonical| && mapping[c] == m && item in canonical[c];
    assert StateClosure(g, first, c, canonical[c]);
    seed :| StateSeed(g, c, seed) && IsClosure(g, first, seed, canonical[c]);
  }

  lemma MergedClosed(g: ResidualGrammar, first: seq<set<nat>>, canonical: seq<set<LrItem>>,
      transitions: map<(nat, Symbol), nat>, mapping: seq<nat>, a: Automaton)
    requires Assembled(g, first, canonical, transitions, mapping, a)
    ensures StatesClosed(g, first, a.states)
  {
    hide Assembled;
    AssembledFacts(g, first, canonical, transitions, mapping, a);
    forall m: nat, item | m < |a.states| && item in a.states[m] ensures ItemInRange(g, item) {
      var c, seed := MemberFacts(g, first, canonical, transitions, mapping, a, m, item);
    }
    forall m: nat, item, p: nat, l | m < |a.states| && item in a.states[m] && Expands(g, first, item, p, l)
      ensures LrItem(p, 0, l) in a.states[m]
    {
      var c, seed := MemberFacts(g, first, canonical, transitions, mapping, a, m, item);
      assert item in (iset i | i in canonical[c]);
    }
  }

  lemma AssembledFacts(g: ResidualGrammar, first: seq<set<nat>>, canonical: seq<set<LrItem>>,
      transitions: map<(nat, Symbol), nat>, mapping: seq<nat>, a: Automaton)
    requires Assembled(g, first, canonical, transitions, mapping, a)
    ensures WellFormed(g) && FirstClosed(g, first) && FirstKnown(g, first) && 0 < |canonical| == |mapping|
    ensures mapping[0] == 0 && 0 < |a.states| && canonical[0] <= a.states[0]
  {
  }

  lemma TransitionFacts(g: ResidualGrammar, first: seq<set<nat>>, canonical: seq<set<LrItem>>,
      transitions: map<(nat, Symbol), nat>, mapping: seq<nat>, a: Automaton, c: nat, s: Symbol)
    requires Assembled(g, first, canonical, transitions, mapping, a) && c < |canonical| && Expects(g, canonical[c], s)
    ensures (c, s) in transitions && Transition(g, first, canonical, (c, s), transitions[(c, s)])
    ensures c < |mapping| && (mapping[c], s) in a.edges && transitions[(c, s)] < |mapping|
    ensures a.edges[(mapping[c], s)] == mapping[transitions[(c, s)]] < |a.states|
    ensures canonical[transitions[(c, s)]] <= a.states[mapping[transitions[(c, s)]]]
  {
    assert Expanded(g, canonical, transitions, c);
  }

  lemma MergedForward(g: ResidualGrammar, first: seq<set<nat>>, canonical: seq<set<LrItem>>,
      transitions: map<(nat, Symbol), nat>, mapping: seq<nat>, a: Automaton)
    requires Assembled(g, first, canonical, transitions, mapping, a)
    ensures EdgesForward(g, a)
  {
    hide Assembled;
    AssembledFacts(g, first, canonical, transitions, mapping, a);
    var ps := AugmentedProductions(g);
    forall m: nat, item | m < |a.states| && item in a.states[m] && Next(ps, item).Some? ensures EdgeFor(g, a, m, item) {
      var c, seed := MemberFacts(g, first, canonical, transitions, mapping, a, m, item);
      var s := Next(ps, item).value;
      assert Expects(g, canonical[c], s);
      TransitionFacts(g, first, canonical, transitions, mapping, a, c, s);
      assert Moved(item) in MovedOver(ps, canonical[c], s);
    }
  }

  lemma Carrier(transitions: map<(nat, Symbol), nat>, mapping: seq<nat>, edges: map<(nat, Symbol), nat>,
      f: (nat, Symbol))
    returns (e: (nat, Symbol))
    requires EdgesOnly(transitions, mapping, edges) && f in edges
    ensures e in transitions && CarriedTo(transitions, mapping, edges, e, f)
  {
    e :| e in transitions && CarriedTo(transitions, mapping, edges, e, f);
  }

  lemma EdgeOrigin(g: ResidualGrammar, first: seq<set<nat>>, canonical: seq<set<LrItem>>,
      transitions: map<(nat, Symbol), nat>, mapping: seq<nat>, a: Automaton, f: (nat, Symbol)) returns (c: nat, t: nat)
    requires Assembled(g, first, canonical, transitions, mapping, a) && f in a.edges
    ensures c < |canonical| == |mapping| && mapping[c] == f.0 < |a.states| && t < |canonical|
    ensures mapping[t] == a.edges[f] < |a.states|
    ensures Transition(g, first, canonical, (c, f.1), t) && canonical[c] <= a.states[f.0]
  {
    var e := Carrier(transitions, mapping, a.edges, f);
    c, t := e.0, transitions[e];
    assert Transition(g, first, canonical, e, transitions[e]);
  }

  lemma MergedBackward(g: ResidualGrammar, first: seq<set<nat>>, canonical: seq<set<LrItem>>,
      transitions: map<(nat, Symbol), nat>, mapping: seq<nat>, a: Automaton)
    requires Assembled(g, first, canonical, transitions, mapping, a)
    ensures EdgesBackward(g, a)
  {
    hide Assembled;
    AssembledFacts(g, first, canonical, transitions, mapping, a);
    var ps := AugmentedProductions(g);
    forall f <- a.edges
      ensures f.0 < |a.states| && a.edges[f] < |a.states|
      ensures exists item :: item in a.states[f.0] && Next(ps, item) == Some(f.1)
    {
      var c, t := EdgeOrigin(g, first, canonical, transitions, mapping, a, f);
      var item :| item in canonical[c] && Next(ps, item) == Some(f.1);
      assert item in a.states[f.0];
    }
    forall f, item | f in a.edges && a.edges[f] < |a.states| && item in a.states[a.edges[f]] && item.dot > 0
      ensures CameFrom(g, a, f, item)
    {
      CameBack(g, first, canonical, transitions, mapping, a, f, item);
    }
  }

  lemma SameCore(g: ResidualGrammar, first: seq<set<nat>>, canonical: seq<set<LrItem>>,
      transitions: map<(nat, Symbol), nat>, mapping: seq<nat>, a: Automaton, c: nat, d: nat)
    requires Assembled(g, first, canonical, transitions, mapping, a) && c < |canonical| && d < |canonical|
    ensures |mapping| == |canonical| && (mapping[c] == mapping[d] ==> Core(canonical[c]) == Core(canonical[d]))
  {
  }

  lemma CameBack(g: ResidualGrammar, first: seq<set<nat>>, canonical: seq<set<LrItem>>,
      transitions: map<(nat, Symbol), nat>, mapping: seq<nat>, a: Automaton, f: (nat, Symbol), item: LrItem)
    requires Assembled(g, first, canonical, transitions, mapping, a)
    requires f in a.edges && a.edges[f] < |a.states| && item in a.states[a.edges[f]] && item.dot > 0
    ensures CameFrom(g, a, f, item)
  {
    hide Assembled;
    AssembledFacts(g, first, canonical, transitions, mapping, a);
    var ps := AugmentedProductions(g);
    var c, t := EdgeOrigin(g, first, canonical, transitions, mapping, a, f);
    var d, seed := MemberFacts(g, first, canonical, transitions, mapping, a, a.edges[f], item);
    SameCore(g, first, canonical, transitions, mapping, a, t, d);
    InCore(canonical[d], item);
    var same := FromCore(canonical[t], (item.production, item.dot));
    AddedAtStart(g, first, MovedOver(ps, canonical[c], f.1), canonical[t], same);
    var prev :| prev in canonical[c] && Next(ps, prev) == Some(f.1) && Moved(prev) == same;
    assert LrItem(item.production, item.dot - 1, prev.lookahead) == prev;
    assert Next(ps, item.(dot := item.dot - 1)) == Next(ps, prev);
    assert HasCore(a.states[f.0], item.production, item.dot - 1);
  }

  lemma MergedStarts(g: ResidualGrammar, first: seq<set<nat>>, canonical: seq<set<LrItem>>,
      transitions: map<(nat, Symbol), nat>, mapping: seq<nat>, a: Automaton)
    requires Assembled(g, first, canonical, transitions, mapping, a)
    ensures StartsExplained(g, a)
  {
    hide Assembled;
    AssembledFacts(g, first, canonical, transitions, mapping, a);
    forall m: nat, item | m < |a.states| && item in a.states[m] ensures Explained(g, a.states[m], item) {
      ItemExplained(g, first, canonical, transitions, mapping, a, m, item);
    }
    forall m: nat, item | m < |a.states| && item in a.states[m] && item.dot == 0 && IsStart(g, item) ensures m == 0 {
      ItemExplained(g, first, canonical, transitions, mapping, a, m, item);
    }
    forall item | item in a.states[0] ensures item.dot == 0 {
      ItemExplained(g, first, canonical, transitions, mapping, a, 0, item);
    }
  }

  lemma ItemExplained(g: ResidualGrammar, first: seq<set<nat>>, canonical: seq<set<LrItem>>,
      transitions: map<(nat, Symbol), nat>, mapping: seq<nat>, a: Automaton, m: nat, item: LrItem)
    requires Assembled(g, first, canonical, transitions, mapping, a) && m < |a.states| && item in a.states[m]
    ensures Explained(g, a.states[m], item)
    ensures item.dot == 0 && IsStart(g, item) ==> m == 0
    ensures m == 0 ==> item.dot == 0
  {
    hide Assembled;
    AssembledFacts(g, first, canonical, transitions, mapping, a);
    var c, seed := MemberFacts(g, first, canonical, transitions, mapping, a, m, item);
    ClosureExplained(g, first, seed, canonical[c], item);
    ExplainedGrows(g, canonical[c], a.states[m], item);
    if item.dot == 0 && IsStart(g, item) {
      StartNotAdded(g, first, seed, canonical[c], item);
    }
    if m == 0 {
      InCore(canonical[c], item);
      var same := FromCore(canonical[0], (item.production, item.dot));
      var c0, seed0 := InitialSeed(g, first, canonical, transitions, mapping, a);
      AddedAtStart(g, first, seed0, canonical[0], same);
    }
  }

  lemma InitialSeed(g: ResidualGrammar, first: seq<set<nat>>, canonical: seq<set<LrItem>>,
      transitions: map<(nat, Symbol), nat>, mapping: seq<nat>, a: Automaton) returns (c: nat, seed: set<LrItem>)
    requires Assembled(g, first, canonical, transitions, mapping, a)
    ensures c == 0 && FirstKnown(g, first) && 0 < |canonical|
    ensures seed == {StartItem(g)} && IsClosure(g, first, seed, canonical[0])
  {
    c := 0;
    assert StateClosure(g, first, 0, canonical[0]);
    seed :| StateSeed(g, 0, seed) && IsClosure(g, first, seed, canonical[0]);
  }

  // Merging a complete collection gives an automaton in the sense the machine needs.
  lemma AssembledAutomaton(g: ResidualGrammar, first: seq<set<nat>>, canonical: seq<set<LrItem>>,
      transitions: map<(nat, Symbol), nat>, mapping: seq<nat>, a: Automaton)
    requires Assembled(g, first, canonical, transitions, mapping, a)
    ensures AutomatonFor(g, first, a)
  {
    hide Assembled, StatesClosed, EdgesForward, EdgesBackward, StartsExplained, IsClosure;
    AssembledFacts(g, first, canonical, transitions, mapping, a);
    MergedClosed(g, first, canonical, transitions, mapping, a);
    MergedForward(g, first, canonical, transitions, mapping, a);
    MergedBackward(g, first, canonical, transitions, mapping, a);
    MergedStarts(g, first, canonical, transitions, mapping, a);
    var c, seed := InitialSeed(g, first, canonical, transitions, mapping, a);
    SeedInside(g, first, seed, canonical[0]);
  }

  lemma SeedInside(g: ResidualGrammar, first: seq<set<nat>>, seed: set<LrItem>, items: set<LrItem>)
    requires FirstKnown(g, first) && IsClosure(g, first, seed, items)
    ensures seed <= items
  {
  }
}
