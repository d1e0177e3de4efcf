/**
 What the LALR(1) construction answers for, said of the grammar alone: its canonical states, the conflicts between their
 items, and the counts that its limits bound.
 */
module LalrConflicts {
  import opened Grammars
  import opened ResidualGrammars
  import opened CompileErrors
  import opened Lalr
  import opened LalrCollection
  import opened Counting

  // ---------- FIRST ----------

  ghost predicate Below(a: seq<set<nat>>, b: seq<set<nat>>) {
    |a| == |b| && forall i :: 0 <= i < |a| ==> a[i] <= b[i]
  }

  // FIRST is the least solution of its rules.
  ghost predicate LeastSoFar(g: ResidualGrammar, first: seq<set<nat>>) {
    forall other: seq<set<nat>> :: FirstClosed(g, other) ==> Below(first, other)
  }

  ghost predicate LeastFirst(g: ResidualGrammar, first: seq<set<nat>>) {
    FirstClosed(g, first) && LeastSoFar(g, first)
  }

  lemma LeastUnique(g: ResidualGrammar, a: seq<set<nat>>, b: seq<set<nat>>)
    requires LeastFirst(g, a) && LeastFirst(g, b)
    ensures a == b
  {
    hide FirstClosed;
    assert Below(a, b) && Below(b, a);
    assert forall i :: 0 <= i < |a| ==> a[i] == b[i];
  }

  // ---------- Canonical states ----------

  // The items `result` holds beyond the seed are forced by closedness.
  ghost predicate Forced(g: ResidualGrammar, first: seq<set<nat>>, seed: set<LrItem>, result: set<LrItem>)
    requires FirstKnown(g, first)
  {
    forall k: iset<LrItem> :: Covers(k, seed) && ClosedUnder(g, first, k) ==> Covers(k, result)
  }

  lemma ClosureUnique(g: ResidualGrammar, first: seq<set<nat>>, seed: set<LrItem>, a: set<LrItem>, b: set<LrItem>)
    requires FirstKnown(g, first) && IsClosure(g, first, seed, a) && IsClosure(g, first, seed, b)
    ensures a == b
  {
    var ka, kb := iset i: LrItem | i in a, iset i: LrItem | i in b;
    assert Covers(ka, seed) && Covers(kb, seed);
  }

  // `t` is the closure of what moves over symbol `x` from `s`.
  ghost predicate FollowsOver(g: ResidualGrammar, first: seq<set<nat>>, s: set<LrItem>, x: Symbol, t: set<LrItem>)
    requires FirstKnown(g, first)
  {
    Expects(g, s, x) && IsClosure(g, first, MovedOver(AugmentedProductions(g), s, x), t)
  }

  ghost predicate Follows(g: ResidualGrammar, first: seq<set<nat>>, s: set<LrItem>, t: set<LrItem>)
    requires FirstKnown(g, first)
  {
    exists x :: FollowsOver(g, first, s, x, t)
  }

  // From the closure of the start item, one symbol at a time.
  ghost predicate StatePath(g: ResidualGrammar, first: seq<set<nat>>, path: seq<set<LrItem>>)
    requires FirstKnown(g, first)
  {
    && path != [] && IsClosure(g, first, {StartItem(g)}, path[0])
    && forall i :: 0 < i < |path| ==> Follows(g, first, path[i - 1], path[i])
  }

  ghost predicate Canonical(g: ResidualGrammar, first: seq<set<nat>>, s: set<LrItem>)
    requires FirstKnown(g, first)
  {
    exists path :: path != [] && StatePath(g, first, path) && path[|path| - 1] == s
  }

  lemma CanonicalStart(g: ResidualGrammar, first: seq<set<nat>>, s: set<LrItem>)
    requires FirstKnown(g, first) && IsClosure(g, first, {StartItem(g)}, s)
    ensures Canonical(g, first, s)
  {
    assert StatePath(g, first, [s]);
  }

  lemma CanonicalNext(g: ResidualGrammar, first: seq<set<nat>>, s: set<LrItem>, x: Symbol, t: set<LrItem>)
    requires FirstKnown(g, first) && Canonical(g, first, s) && FollowsOver(g, first, s, x, t)
    ensures Canonical(g, first, t)
  {
    hide IsClosure, Expects, MovedOver;
    var path :| path != [] && StatePath(g, first, path) && path[|path| - 1] == s;
    var longer := path + [t];
    forall i | 0 < i < |longer| ensures Follows(g, first, longer[i - 1], longer[i]) {
      if i < |path| {
        assert Follows(g, first, path[i - 1], path[i]);
      } else {
        assert FollowsOver(g, first, s, x, t);
      }
    }
    assert StatePath(g, first, longer);
  }

  // A collection that has the start and follows every transition has every canonical state.
  lemma {:induction false} PathCollected(g: ResidualGrammar, first: seq<set<nat>>, canonical: seq<set<LrItem>>,
      transitions: map<(nat, Symbol), nat>, path: seq<set<LrItem>>) returns (c: nat)
    requires FirstKnown(g, first) && Collection(g, first, canonical, transitions)
    requires forall c: nat :: c < |canonical| ==> Expanded(g, canonical, transitions, c)
    requires StatePath(g, first, path)
    ensures c < |canonical| && canonical[c] == path[|path| - 1]
    decreases |path|
  {
    hide IsClosure, Expects, MovedOver;
    if |path| == 1 {
      c := 0;
      StartCollected(g, first, canonical, transitions);
      ClosureUnique(g, first, {StartItem(g)}, canonical[0], path[0]);
    } else {
      var front := path[..|path| - 1];
      forall i | 0 < i < |front| ensures Follows(g, first, front[i - 1], front[i]) {
        assert Follows(g, first, path[i - 1], path[i]);
      }
      var b := PathCollected(g, first, canonical, transitions, front);
      assert Follows(g, first, path[|path| - 2], path[|path| - 1]);
      var x :| FollowsOver(g, first, path[|path| - 2], x, path[|path| - 1]);
      assert Expanded(g, canonical, transitions, b);
      c := transitions[(b, x)];
      assert Transition(g, first, canonical, (b, x), c);
      ClosureUnique(g, first, MovedOver(AugmentedProductions(g), canonical[b], x), canonical[c], path[|path| - 1]);
    }
  }

  lemma StartCollected(g: ResidualGrammar, first: seq<set<nat>>, canonical: seq<set<LrItem>>,
      transitions: map<(nat, Symbol), nat>)
    requires FirstKnown(g, first) && Collection(g, first, canonical, transitions)
    ensures IsClosure(g, first, {StartItem(g)}, canonical[0])
  {
    hide IsClosure;
    assert StateClosure(g, first, 0, canonical[0]);
  }

  // ---------- Conflicts ----------

  datatype Wish = ToShift | ToReduce(production: nat) | ToAccept

  // What an item asks for, and under which lookahead; an item before a nonterminal asks for nothing.
  function Wants(g: ResidualGrammar, item: LrItem): Option<(Lookahead, Wish)> {
    match Next(AugmentedProductions(g), item)
    case Some(Terminal(t)) => Some((On(t), ToShift))
    case Some(Nonterminal(_)) => None
    case None =>
      if item.production == |g.productions| && item.lookahead == Eof then Some((Eof, ToAccept))
      else Some((item.lookahead, ToReduce(item.production)))
  }

  // The items ask for different things under one lookahead.
  predicate Clash(g: ResidualGrammar, i: LrItem, j: LrItem, l: Lookahead) {
    var x, y := Wants(g, i), Wants(g, j);
    x.Some? && y.Some? && x.value.0 == y.value.0 == l && x.value.1 != y.value.1
  }

  // What kind of conflict that is.
  function ClashKind(x: Wish, y: Wish): ConflictKind {
    if x.ToAccept? || y.ToAccept? then AcceptConflict
    else if x.ToReduce? && y.ToReduce? then ReduceReduce
    else ShiftReduce
  }

  // Two canonical states with one core hold items that clash.
  ghost predicate ClashIn(g: ResidualGrammar, first: seq<set<nat>>, s: set<LrItem>, t: set<LrItem>, i: LrItem,
      j: LrItem, l: Lookahead)
  {
    && FirstKnown(g, first) && Canonical(g, first, s) && Canonical(g, first, t) && Core(s) == Core(t)
    && i in s && j in t && Clash(g, i, j, l)
  }

  // The grammar is not LALR(1).
  ghost predicate HasConflict(g: ResidualGrammar) {
    exists first, s, t, i, j, l :: LeastFirst(g, first) && ClashIn(g, first, s, t, i, j, l)
  }

  // An item of a core that clashes with another of it.
  ghost predicate ClashHere(g: ResidualGrammar, first: seq<set<nat>>, x: (set<(nat, nat)>, LrItem)) {
    exists s, t, i, l :: ClashIn(g, first, s, t, i, x.1, l) && Core(s) == x.0
  }

  // So many items clash with another of their core.
  ghost predicate ManyClashes(g: ResidualGrammar, n: nat) {
    exists first, xs: seq<(set<(nat, nat)>, LrItem)> ::
      LeastFirst(g, first) && |xs| == n && Distinct(xs) && forall x <- xs :: ClashHere(g, first, x)
  }

  // There is a clash under this lookahead.
  ghost predicate ClashUnder(g: ResidualGrammar, l: Lookahead) {
    exists first, s, t, i, j :: LeastFirst(g, first) && ClashIn(g, first, s, t, i, j, l)
  }

  predicate KindIs(g: ResidualGrammar, i: LrItem, j: LrItem, kind: ConflictKind) {
    var x, y := Wants(g, i), Wants(g, j);
    x.Some? && y.Some? && kind == ClashKind(x.value.1, y.value.1)
  }

  // A reported conflict is one of the grammar's, under its lookahead and of its kind.
  ghost predicate Reported(g: ResidualGrammar, c: Conflict) {
    exists first, s, t, i, j ::
      LeastFirst(g, first) && ClashIn(g, first, s, t, i, j, c.lookahead) && KindIs(g, i, j, c.kind)
  }

  lemma ReportedIsConflict(g: ResidualGrammar, c: Conflict)
    requires Reported(g, c)
    ensures HasConflict(g) && ClashUnder(g, c.lookahead)
  {
    hide LeastFirst, ClashIn;
    var first, s, t, i, j :|
      LeastFirst(g, first) && ClashIn(g, first, s, t, i, j, c.lookahead) && KindIs(g, i, j, c.kind);
  }

  // ---------- In the merged automaton ----------

  // Everything the construction knows when it builds the table.
  ghost predicate Constructed(g: ResidualGrammar, first: seq<set<nat>>, canonical: seq<set<LrItem>>,
      transitions: map<(nat, Symbol), nat>, mapping: seq<nat>, a: Automaton)
  {
    && Assembled(g, first, canonical, transitions, mapping, a) && LeastFirst(g, first)
    && forall c: nat :: c < |canonical| ==> Canonical(g, first, canonical[c])
  }

  // The action an item's wish becomes in state `m`.
  predicate Grants(a: Automaton, m: nat, l: Lookahead, wish: Wish, action: Action) {
    match wish
    case ToShift => l.On? && (m, Terminal(l.terminal)) in a.edges && action == Shift(a.edges[(m, Terminal(l.terminal))])
    case ToReduce(p) => action == Reduce(p)
    case ToAccept => action == Accept
  }

  // An action of a row is what some item of the state asks for.
  lemma ActionWanted(g: ResidualGrammar, first: seq<set<nat>>, a: Automaton, m: nat, l: Lookahead, action: Action)
      returns (item: LrItem, wish: Wish)
    requires AutomatonFor(g, first, a) && m < |a.states| && ActionFrom(g, a, m, l, action)
    ensures item in a.states[m] && Wants(g, item) == Some((l, wish)) && Grants(a, m, l, wish, action)
  {
    hide AutomatonFor;
    match action
    case Shift(q) =>
      wish := ToShift;
      item := EdgeWanted(g, first, a, m, Terminal(l.terminal));
    case Reduce(p) =>
      wish := ToReduce(p);
      item :| item in a.states[m] && IsFinished(g, item, p) && item.lookahead == l;
    case Accept =>
      wish := ToAccept;
      item :| item in a.states[m] && IsFinished(g, item, |g.productions|);
      StateItem(g, first, a, m, item);
  }

  lemma EdgeWanted(g: ResidualGrammar, first: seq<set<nat>>, a: Automaton, m: nat, x: Symbol) returns (item: LrItem)
    requires AutomatonFor(g, first, a) && (m, x) in a.edges && m < |a.states|
    ensures item in a.states[m] && Next(AugmentedProductions(g), item) == Some(x)
  {
    hide WellFormed, FirstClosed, StatesClosed, EdgesForward, StartsExplained;
    item :| item in a.states[m] && Next(AugmentedProductions(g), item) == Some(x);
  }

  lemma StateItem(g: ResidualGrammar, first: seq<set<nat>>, a: Automaton, m: nat, item: LrItem)
    requires AutomatonFor(g, first, a) && m < |a.states| && item in a.states[m]
    ensures ItemInRange(g, item)
  {
    hide WellFormed, FirstClosed, EdgesBackward, EdgesForward, StartsExplained;
  }

  lemma DemandWanted(g: ResidualGrammar, a: Automaton, m: nat, item: LrItem)
    requires Demand(g, a, m, item).Some?
    ensures var (l, action) := Demand(g, a, m, item).value;
            Wants(g, item).Some? && Wants(g, item).value.0 == l && Grants(a, m, l, Wants(g, item).value.1, action)
  {
  }

  // A state of the automaton in which an item asks for something else than an entry that is there.
  ghost predicate ConflictAt(g: ResidualGrammar, a: Automaton, actions: map<Lookahead, Action>, c: Conflict) {
    c.state < |a.states| && ConflictReal(g, a, c.state, actions, c) && ActionFrom(g, a, c.state, c.lookahead, c.first)
  }

  // The conflict is about this item of this state.
  ghost predicate ConflictOf(g: ResidualGrammar, a: Automaton, x: (nat, LrItem), c: Conflict) {
    && x.0 == c.state < |a.states| && x.1 in a.states[x.0]
    && Demand(g, a, x.0, x.1) == Some((c.lookahead, c.second))
  }

  // A conflict about item `j` comes from two canonical states with one core.
  lemma ConflictClash(g: ResidualGrammar, first: seq<set<nat>>, canonical: seq<set<LrItem>>,
      transitions: map<(nat, Symbol), nat>, mapping: seq<nat>, a: Automaton, actions: map<Lookahead, Action>,
      c: Conflict, j: LrItem)
    returns (d: nat, e: nat, i: LrItem)
    requires Constructed(g, first, canonical, transitions, mapping, a) && AutomatonFor(g, first, a)
    requires ConflictAt(g, a, actions, c) && ConflictOf(g, a, (c.state, j), c)
    ensures d < |canonical| == |mapping| && e < |canonical| && mapping[d] == c.state
    ensures ClashIn(g, first, canonical[d], canonical[e], i, j, c.lookahead) && KindIs(g, i, j, c.kind)
  {
    hide Assembled, AutomatonFor, LeastFirst, Canonical, Core, Next, ActionFrom, Demand;
    AssembledFacts(g, first, canonical, transitions, mapping, a);
    var m, seedI, seedJ, wish := c.state, {}, {}, ToAccept;
    i, wish := ActionWanted(g, first, a, m, c.lookahead, c.first);
    DemandWanted(g, a, m, j);
    d, seedI := MemberFacts(g, first, canonical, transitions, mapping, a, m, i);
    e, seedJ := MemberFacts(g, first, canonical, transitions, mapping, a, m, j);
    SameCore(g, first, canonical, transitions, mapping, a, d, e);
    hide Wants;
  }

  // A reported conflict is one of the grammar's.
  lemma ConflictReported(g: ResidualGrammar, first: seq<set<nat>>, canonical: seq<set<LrItem>>,
      transitions: map<(nat, Symbol), nat>, mapping: seq<nat>, a: Automaton, actions: map<Lookahead, Action>,
      c: Conflict)
    requires Constructed(g, first, canonical, transitions, mapping, a) && AutomatonFor(g, first, a)
    requires ConflictAt(g, a, actions, c)
    ensures Reported(g, c)
  {
    hide Constructed, AutomatonFor, ActionFrom, Demand, ClashIn, LeastFirst, KindIs;
    var j :| j in a.states[c.state] && Demand(g, a, c.state, j) == Some((c.lookahead, c.second));
    var d, e, i := ConflictClash(g, first, canonical, transitions, mapping, a, actions, c, j);
    ConstructedFirst(g, first, canonical, transitions, mapping, a);
  }

  lemma ConstructedFirst(g: ResidualGrammar, first: seq<set<nat>>, canonical: seq<set<LrItem>>,
      transitions: map<(nat, Symbol), nat>, mapping: seq<nat>, a: Automaton)
    requires Constructed(g, first, canonical, transitions, mapping, a)
    ensures LeastFirst(g, first)
  {
    hide Assembled, LeastFirst, Canonical;
  }

  // The row gives the item what it asks for, or a conflict tells that it does not.
  ghost predicate Answered(g: ResidualGrammar, a: Automaton, m: nat, item: LrItem, actions: map<Lookahead, Action>,
      gotos: map<nat, nat>, conflicts: seq<Conflict>)
  {
    RowServes(g, a, m, item, actions, gotos) || exists c <- conflicts :: ConflictOf(g, a, (m, item), c)
  }

  ghost predicate AllAnswered(g: ResidualGrammar, a: Automaton, table: LalrTable, conflicts: seq<Conflict>) {
    && |table.actions| == |a.states| == |table.gotos|
    && forall m: nat, item :: m < |a.states| && item in a.states[m] ==>
         Answered(g, a, m, item, table.actions[m], table.gotos[m], conflicts)
  }

  // A clash of the grammar is told of, under its lookahead: merging hides none.
  lemma ClashTold(g: ResidualGrammar, first: seq<set<nat>>, canonical: seq<set<LrItem>>,
      transitions: map<(nat, Symbol), nat>, mapping: seq<nat>, a: Automaton, table: LalrTable, conflicts: seq<Conflict>,
      l: Lookahead)
    requires Constructed(g, first, canonical, transitions, mapping, a) && AllAnswered(g, a, table, conflicts)
    requires ClashUnder(g, l)
    ensures exists c <- conflicts :: c.lookahead == l
  {
    hide Assembled, LeastFirst, AllAnswered, Clash, Core;
    AssembledFacts(g, first, canonical, transitions, mapping, a);
    var other, s, t, i, j :| LeastFirst(g, other) && ClashIn(g, other, s, t, i, j, l);
    LeastUnique(g, first, other);
    var c := StateCollected(g, first, canonical, transitions, mapping, a, s);
    var d := StateCollected(g, first, canonical, transitions, mapping, a, t);
    MergedTogether(g, first, canonical, transitions, mapping, a, c, d);
    OneIsTold(g, a, table, conflicts, mapping[c], i, j, l);
  }

  lemma StateCollected(g: ResidualGrammar, first: seq<set<nat>>, canonical: seq<set<LrItem>>,
      transitions: map<(nat, Symbol), nat>, mapping: seq<nat>, a: Automaton, s: set<LrItem>) returns (c: nat)
    requires Assembled(g, first, canonical, transitions, mapping, a) && FirstKnown(g, first) && Canonical(g, first, s)
    ensures c < |canonical| && canonical[c] == s
  {
    hide StatePath, FirstClosed, Merged;
    var path :| path != [] && StatePath(g, first, path) && path[|path| - 1] == s;
    c := PathCollected(g, first, canonical, transitions, path);
  }

  lemma MergedTogether(g: ResidualGrammar, first: seq<set<nat>>, canonical: seq<set<LrItem>>,
      transitions: map<(nat, Symbol), nat>, mapping: seq<nat>, a: Automaton, c: nat, d: nat)
    requires Assembled(g, first, canonical, transitions, mapping, a) && c < |canonical| && d < |canonical|
    requires Core(canonical[c]) == Core(canonical[d])
    ensures |mapping| == |canonical| && mapping[c] == mapping[d] < |a.states|
    ensures canonical[c] <= a.states[mapping[c]] && canonical[d] <= a.states[mapping[c]]
  {
    hide Core, FirstClosed, Collection;
  }

  lemma OneIsTold(g: ResidualGrammar, a: Automaton, table: LalrTable, conflicts: seq<Conflict>, m: nat, i: LrItem,
      j: LrItem, l: Lookahead)
    requires AllAnswered(g, a, table, conflicts) && m < |a.states| && i in a.states[m] && j in a.states[m]
    requires Clash(g, i, j, l)
    ensures exists c <- conflicts :: c.lookahead == l
  {
    assert Answered(g, a, m, i, table.actions[m], table.gotos[m], conflicts);
    assert Answered(g, a, m, j, table.actions[m], table.gotos[m], conflicts);
    if c :| c in conflicts && ConflictOf(g, a, (m, i), c) {
      DemandWanted(g, a, m, i);
    } else if c :| c in conflicts && ConflictOf(g, a, (m, j), c) {
      DemandWanted(g, a, m, j);
    }
  }

  // ---------- Limits ----------

  // What is closed on the way to a state: the start item, or what moves over a symbol from a canonical state.
  ghost predicate SeedOf(g: ResidualGrammar, first: seq<set<nat>>, seed: set<LrItem>)
    requires FirstKnown(g, first)
  {
    || seed == {StartItem(g)}
    || exists s, x :: Canonical(g, first, s) && Expects(g, s, x) && seed == MovedOver(AugmentedProductions(g), s, x)
  }

  // So many items are forced by one seed, and there are more than the limit.
  ghost predicate TooBig(g: ResidualGrammar, first: seq<set<nat>>, seed: set<LrItem>, limits: CompileLimits,
      e: CompileError)
    requires FirstKnown(g, first)
  {
    exists items ::
      && Forced(g, first, seed, items) && |items| > limits.maxLrItems
      && e == ResourceLimitExceeded(LrConstruction, |items|, limits.maxLrItems)
  }

  lemma TooBigFrom(g: ResidualGrammar, first: seq<set<nat>>, seed: set<LrItem>, items: set<LrItem>,
      limits: CompileLimits)
    requires FirstKnown(g, first) && Forced(g, first, seed, items) && |items| > limits.maxLrItems
    ensures TooBig(g, first, seed, limits, ResourceLimitExceeded(LrConstruction, |items|, limits.maxLrItems))
  {
    hide Forced;
  }

  function ItemTotal(states: seq<set<LrItem>>): nat {
    if states == [] then 0 else ItemTotal(states[..|states| - 1]) + |states[|states| - 1]|
  }

  ghost predicate CanonicalStates(g: ResidualGrammar, first: seq<set<nat>>, states: seq<set<LrItem>>) {
    FirstKnown(g, first) && Distinct(states) && forall s <- states :: Canonical(g, first, s)
  }

  ghost predicate ManyStates(g: ResidualGrammar, n: nat) {
    exists first, states :: LeastFirst(g, first) && CanonicalStates(g, first, states) && |states| == n
  }

  // A complete collection bounds the number of canonical states.
  lemma StatesBound(g: ResidualGrammar, first: seq<set<nat>>, canonical: seq<set<LrItem>>,
      transitions: map<(nat, Symbol), nat>, mapping: seq<nat>, a: Automaton, n: nat)
    requires Constructed(g, first, canonical, transitions, mapping, a) && ManyStates(g, n)
    ensures n <= |canonical|
  {
    hide Assembled, LeastFirst, Canonical;
    AssembledFacts(g, first, canonical, transitions, mapping, a);
    var other, states :| LeastFirst(g, other) && CanonicalStates(g, other, states) && |states| == n;
    LeastUnique(g, first, other);
    forall s <- states ensures s in canonical {
      var c := StateCollected(g, first, canonical, transitions, mapping, a, s);
    }
    DistinctPart(states, canonical);
  }

  ghost predicate ManyItems(g: ResidualGrammar, n: nat) {
    || (exists first, states :: LeastFirst(g, first) && CanonicalStates(g, first, states) && ItemTotal(states) == n)
    || (exists first, seed, items ::
          LeastFirst(g, first) && SeedOf(g, first, seed) && Forced(g, first, seed, items) && |items| == n)
  }

  // States that are not merged with one another.
  ghost predicate ManyCores(g: ResidualGrammar, n: nat) {
    exists first, states ::
      LeastFirst(g, first) && CanonicalStates(g, first, states) && CoresApart(states) && |states| == n
  }

  ghost predicate CoresApart(states: seq<set<LrItem>>) {
    forall i, j :: 0 <= i < j < |states| ==> Core(states[i]) != Core(states[j])
  }

  function EntryCount<K, V>(rows: seq<map<K, V>>): nat {
    if rows == [] then 0 else EntryCount(rows[..|rows| - 1]) + |rows[|rows| - 1]|
  }

  // A table over the merged canonical states, each entry asked for by an item.
  ghost predicate TableOf(g: ResidualGrammar, table: LalrTable) {
    exists first, canonical, transitions, mapping, a ::
      Constructed(g, first, canonical, transitions, mapping, a) && TableSound(g, a, table)
  }

  ghost predicate ManyActions(g: ResidualGrammar, n: nat) {
    exists table :: TableOf(g, table) && EntryCount(table.actions) == n
  }

  ghost predicate ManyGotos(g: ResidualGrammar, n: nat) {
    exists table :: TableOf(g, table) && EntryCount(table.gotos) == n
  }

  // The error names a limit, and a count of the grammar's own construction that goes over it.
  ghost predicate OverLimit(g: ResidualGrammar, limits: CompileLimits, e: CompileError) {
    && e.ResourceLimitExceeded? && e.observed > e.limit
    && match e.stage
       case LrConstruction =>
         || (e.limit == limits.maxLrItems && ManyItems(g, e.observed))
         || (e.limit == limits.maxLrStates && ManyStates(g, e.observed))
       case LalrMerge => e.limit == limits.maxLrStates && ManyCores(g, e.observed)
       case LalrTableStage =>
         || (e.limit == limits.maxReportedConflicts && ManyClashes(g, e.observed))
         || (e.limit == limits.maxActionEntries && ManyActions(g, e.observed))
         || (e.limit == limits.maxGotoEntries && ManyGotos(g, e.observed))
       case _ => false
  }

  lemma TooBigIsOver(g: ResidualGrammar, first: seq<set<nat>>, seed: set<LrItem>, limits: CompileLimits,
      e: CompileError)
    requires LeastFirst(g, first) && SeedOf(g, first, seed) && TooBig(g, first, seed, limits, e)
    ensures OverLimit(g, limits, e)
  {
    hide LeastFirst, Forced;
  }

  // What the collection has so far, its ids and its count of items.
  ghost predicate Tallied(g: ResidualGrammar, first: seq<set<nat>>, canonical: seq<set<LrItem>>,
      ids: map<set<LrItem>, nat>, total: nat)
  {
    && LeastFirst(g, first) && CanonicalStates(g, first, canonical) && total == ItemTotal(canonical)
    && forall s :: s in ids <==> s in canonical
  }

  lemma TallyStart(g: ResidualGrammar, first: seq<set<nat>>, s: set<LrItem>)
    requires LeastFirst(g, first) && IsClosure(g, first, {StartItem(g)}, s)
    ensures Tallied(g, first, [s], map[s := 0], |s|)
  {
    hide IsClosure;
    CanonicalStart(g, first, s);
    assert [s][..0] == [] && ItemTotal([]) == 0;
  }

  // One more state.
  lemma TallyMore(g: ResidualGrammar, first: seq<set<nat>>, canonical: seq<set<LrItem>>, ids: map<set<LrItem>, nat>,
      total: nat, s: set<LrItem>, x: Symbol, t: set<LrItem>)
    requires Tallied(g, first, canonical, ids, total) && s in canonical && t !in ids && FirstKnown(g, first)
    requires Expects(g, s, x) && IsClosure(g, first, MovedOver(AugmentedProductions(g), s, x), t)
    ensures Tallied(g, first, canonical + [t], ids[t := |canonical|], total + |t|)
  {
    hide IsClosure, Expects, MovedOver, LeastFirst, Canonical;
    assert FollowsOver(g, first, s, x, t);
    CanonicalNext(g, first, s, x, t);
    var more := canonical + [t];
    assert more[..|canonical|] == canonical;
    assert forall u :: u in more <==> u in canonical || u == t;
  }

  lemma TallySeed(g: ResidualGrammar, first: seq<set<nat>>, canonical: seq<set<LrItem>>, ids: map<set<LrItem>, nat>,
      total: nat, s: set<LrItem>, x: Symbol)
    requires Tallied(g, first, canonical, ids, total) && s in canonical && FirstKnown(g, first) && Expects(g, s, x)
    ensures LeastFirst(g, first) && SeedOf(g, first, MovedOver(AugmentedProductions(g), s, x))
  {
    hide Expects, MovedOver, LeastFirst;
  }

  // The tally says what a limit on states or items was overrun by.
  lemma TallyOver(g: ResidualGrammar, first: seq<set<nat>>, canonical: seq<set<LrItem>>, ids: map<set<LrItem>, nat>,
      total: nat, limits: CompileLimits)
    requires Tallied(g, first, canonical, ids, total)
    ensures |canonical| > limits.maxLrStates ==>
              OverLimit(g, limits, ResourceLimitExceeded(LrConstruction, |canonical|, limits.maxLrStates))
    ensures total > limits.maxLrItems ==>
              OverLimit(g, limits, ResourceLimitExceeded(LrConstruction, total, limits.maxLrItems))
  {
    hide LeastFirst;
  }

  // More cores than the limit among the states.
  ghost predicate CoresOver(canonical: seq<set<LrItem>>, limits: CompileLimits, e: CompileError) {
    exists states ::
      && (forall s <- states :: s in canonical) && CoresApart(states) && |states| > limits.maxLrStates
      && e == ResourceLimitExceeded(LalrMerge, |states|, limits.maxLrStates)
  }

  lemma CoresOverFrom(canonical: seq<set<LrItem>>, limits: CompileLimits, states: seq<set<LrItem>>)
    requires (forall s <- states :: s in canonical) && CoresApart(states) && |states| > limits.maxLrStates
    ensures CoresOver(canonical, limits, ResourceLimitExceeded(LalrMerge, |states|, limits.maxLrStates))
  {
    hide CoresApart;
  }

  lemma CoresOverIsOver(g: ResidualGrammar, first: seq<set<nat>>, canonical: seq<set<LrItem>>, limits: CompileLimits,
      e: CompileError)
    requires LeastFirst(g, first) && CanonicalStates(g, first, canonical) && CoresOver(canonical, limits, e)
    ensures OverLimit(g, limits, e)
  {
    hide LeastFirst, Canonical, Core;
    var states :| (forall s <- states :: s in canonical) && CoresApart(states) && |states| > limits.maxLrStates
      && e == ResourceLimitExceeded(LalrMerge, |states|, limits.maxLrStates);
    assert CanonicalStates(g, first, states);
  }

  ghost predicate Unserved(g: ResidualGrammar, a: Automaton, x: (nat, LrItem)) {
    exists actions, c :: ConflictAt(g, a, actions, c) && ConflictOf(g, a, x, c)
  }

  ghost predicate ManyUnserved(g: ResidualGrammar, a: Automaton, n: nat) {
    exists xs: seq<(nat, LrItem)> :: |xs| == n && Distinct(xs) && forall x <- xs :: Unserved(g, a, x)
  }

  // The core of merged state `m`.
  ghost function CoreOf(canonical: seq<set<LrItem>>, mapping: seq<nat>, m: nat): set<(nat, nat)> {
    if d: nat :| d < |canonical| && d < |mapping| && mapping[d] == m then Core(canonical[d]) else {}
  }

  lemma CoreOfMember(g: ResidualGrammar, first: seq<set<nat>>, canonical: seq<set<LrItem>>,
      transitions: map<(nat, Symbol), nat>, mapping: seq<nat>, a: Automaton, d: nat)
    requires Assembled(g, first, canonical, transitions, mapping, a) && d < |canonical| == |mapping|
    ensures CoreOf(canonical, mapping, mapping[d]) == Core(canonical[d])
  {
    hide Assembled, Core;
    var e: nat :| e < |canonical| && e < |mapping| && mapping[e] == mapping[d]
      && CoreOf(canonical, mapping, mapping[d]) == Core(canonical[e]);
    SameCore(g, first, canonical, transitions, mapping, a, d, e);
  }

  ghost predicate HasMember(canonical: seq<set<LrItem>>, mapping: seq<nat>, m: nat) {
    exists d: nat :: d < |canonical| == |mapping| && mapping[d] == m
  }

  // An item not served clashes with another, and different states have different cores.
  lemma UnservedClashes(g: ResidualGrammar, first: seq<set<nat>>, canonical: seq<set<LrItem>>,
      transitions: map<(nat, Symbol), nat>, mapping: seq<nat>, a: Automaton, x: (nat, LrItem))
    requires Constructed(g, first, canonical, transitions, mapping, a) && AutomatonFor(g, first, a)
    requires Unserved(g, a, x)
    ensures ClashHere(g, first, (CoreOf(canonical, mapping, x.0), x.1))
    ensures HasMember(canonical, mapping, x.0)
  {
    hide Assembled, AutomatonFor, LeastFirst, ClashIn, Core, Canonical, ConflictReal, ActionFrom;
    var actions, c :| ConflictAt(g, a, actions, c) && ConflictOf(g, a, x, c);
    var d, e, i := ConflictClash(g, first, canonical, transitions, mapping, a, actions, c, x.1);
    CoreOfMember(g, first, canonical, transitions, mapping, a, d);
  }

  lemma CoresDiffer(g: ResidualGrammar, first: seq<set<nat>>, canonical: seq<set<LrItem>>,
      transitions: map<(nat, Symbol), nat>, mapping: seq<nat>, a: Automaton, d: nat, e: nat)
    requires Assembled(g, first, canonical, transitions, mapping, a) && d < |canonical| && e < |canonical|
    ensures |mapping| == |canonical|
    ensures CoreOf(canonical, mapping, mapping[d]) == CoreOf(canonical, mapping, mapping[e]) ==>
              mapping[d] == mapping[e]
  {
    AssembledFacts(g, first, canonical, transitions, mapping, a);
    CoreOfMember(g, first, canonical, transitions, mapping, a, d);
    CoreOfMember(g, first, canonical, transitions, mapping, a, e);
    hide Core, CoreOf, Collection, Expanded, EdgesKept, EdgesOnly, WellFormed, FirstClosed;
  }

  lemma UnservedClash(g: ResidualGrammar, first: seq<set<nat>>, canonical: seq<set<LrItem>>,
      transitions: map<(nat, Symbol), nat>, mapping: seq<nat>, a: Automaton, n: nat)
    requires Constructed(g, first, canonical, transitions, mapping, a) && AutomatonFor(g, first, a)
    requires ManyUnserved(g, a, n)
    ensures ManyClashes(g, n)
  {
    hide Assembled, AutomatonFor, LeastFirst, ClashHere, CoreOf, Canonical, Unserved;
    var xs: seq<(nat, LrItem)> :| |xs| == n && Distinct(xs) && forall x <- xs :: Unserved(g, a, x);
    var ys := seq(n, k requires 0 <= k < n => (CoreOf(canonical, mapping, xs[k].0), xs[k].1));
    forall k | 0 <= k < n ensures ClashHere(g, first, ys[k]) && HasMember(canonical, mapping, xs[k].0) {
      assert xs[k] in xs;
      UnservedClashes(g, first, canonical, transitions, mapping, a, xs[k]);
    }
    forall k, l | 0 <= k < l < n ensures ys[k] != ys[l] {
      assert HasMember(canonical, mapping, xs[k].0) && HasMember(canonical, mapping, xs[l].0);
      var d: nat :| d < |canonical| == |mapping| && mapping[d] == xs[k].0;
      var e: nat :| e < |canonical| == |mapping| && mapping[e] == xs[l].0;
      CoresDiffer(g, first, canonical, transitions, mapping, a, d, e);
      assert xs[k] != xs[l];
    }
    forall y <- ys ensures ClashHere(g, first, y) {
      var k :| 0 <= k < n && ys[k] == y;
    }
    assert Distinct(ys);
  }

  // What the table was overrun by: its conflicts or its entries.
  ghost predicate TableOver(g: ResidualGrammar, a: Automaton, limits: CompileLimits, e: CompileError) {
    && e.ResourceLimitExceeded? && e.stage == LalrTableStage && e.observed > e.limit
    && (|| (e.limit == limits.maxReportedConflicts && ManyUnserved(g, a, e.observed))
        || exists table :: TableSound(g, a, table) && EntriesOver(table, limits, e))
  }

  predicate EntriesOver(table: LalrTable, limits: CompileLimits, e: CompileError)
    requires e.ResourceLimitExceeded?
  {
    || (e.limit == limits.maxActionEntries && EntryCount(table.actions) == e.observed)
    || (e.limit == limits.maxGotoEntries && EntryCount(table.gotos) == e.observed)
  }

  lemma TableOverIsOver(g: ResidualGrammar, first: seq<set<nat>>, canonical: seq<set<LrItem>>,
      transitions: map<(nat, Symbol), nat>, mapping: seq<nat>, a: Automaton, limits: CompileLimits, e: CompileError)
    requires Constructed(g, first, canonical, transitions, mapping, a) && AutomatonFor(g, first, a)
    requires TableOver(g, a, limits, e)
    ensures OverLimit(g, limits, e)
  {
    hide Constructed, AutomatonFor, TableSound, EntryCount, ManyClashes, ManyUnserved;
    if e.limit == limits.maxReportedConflicts && ManyUnserved(g, a, e.observed) {
      UnservedClash(g, first, canonical, transitions, mapping, a, e.observed);
    } else {
      var table :| TableSound(g, a, table) && EntriesOver(table, limits, e);
      assert TableOf(g, table);
    }
  }

  // What the table reports are the grammar's conflicts, under exactly the lookaheads that have one.
  lemma TableAnswers(g: ResidualGrammar, first: seq<set<nat>>, canonical: seq<set<LrItem>>,
      transitions: map<(nat, Symbol), nat>, mapping: seq<nat>, a: Automaton, table: LalrTable, conflicts: seq<Conflict>)
    requires Constructed(g, first, canonical, transitions, mapping, a) && AutomatonFor(g, first, a)
    requires AllAnswered(g, a, table, conflicts)
    requires forall c <- conflicts :: c.state < |a.states| && ConflictAt(g, a, table.actions[c.state], c)
    ensures forall c <- conflicts :: Reported(g, c)
    ensures forall l :: (exists c <- conflicts :: c.lookahead == l) <==> ClashUnder(g, l)
    ensures conflicts == [] <==> !HasConflict(g)
  {
    assert |table.actions| == |a.states|;
    hide Constructed, AutomatonFor, ConflictReal, ActionFrom, AllAnswered, Reported, ClashUnder;
    forall c <- conflicts ensures Reported(g, c) && ClashUnder(g, c.lookahead) {
      ConflictReported(g, first, canonical, transitions, mapping, a, table.actions[c.state], c);
      ReportedIsConflict(g, c);
    }
    forall l | ClashUnder(g, l) ensures exists c <- conflicts :: c.lookahead == l {
      ClashTold(g, first, canonical, transitions, mapping, a, table, conflicts, l);
    }
    ConflictIsClash(g);
    if conflicts != [] {
      assert conflicts[0] in conflicts;
    }
  }

  lemma ConflictIsClash(g: ResidualGrammar)
    ensures HasConflict(g) <==> exists l :: ClashUnder(g, l)
  {
    hide LeastFirst, ClashIn;
    if HasConflict(g) {
      var first, s, t, i, j, l :| LeastFirst(g, first) && ClashIn(g, first, s, t, i, j, l);
      assert ClashUnder(g, l);
    }
  }
}
