/**
 LALR(1) items, lookahead sets, automata, tables, and the shift-reduce machine that reads them.
 */
module Lalr {
  import opened Grammars
  import opened Terminals
  import opened ResidualGrammars

  datatype Lookahead = On(terminal: nat) | Eof

  datatype LrItem = LrItem(production: nat, dot: nat, lookahead: Lookahead)

  datatype Action = Shift(state: nat) | Reduce(production: nat) | Accept

  datatype LalrTable = LalrTable(actions: seq<map<Lookahead, Action>>, gotos: seq<map<nat, nat>>)

  datatype ConflictKind = ShiftReduce | ReduceReduce | AcceptConflict

  datatype Conflict = Conflict(kind: ConflictKind, state: nat, lookahead: Lookahead, first: Action, second: Action)

  datatype CompiledLalr = CompiledLalr(
    grammar: ResidualGrammar, productions: seq<Production>, table: LalrTable, conflicts: seq<Conflict>,
      lexicalSafe: bool)

  datatype Automaton = Automaton(states: seq<set<LrItem>>, edges: map<(nat, Symbol), nat>)

  // ---------- FIRST and nullable ----------

  ghost predicate TailKnown(nullable: seq<bool>, first: seq<set<nat>>, tail: seq<Symbol>) {
    |nullable| == |first| && forall s <- tail :: s.Nonterminal? ==> s.id < |first|
  }

  function AllNullable(nullable: seq<bool>, tail: seq<Symbol>): bool {
    tail == [] || (tail[0].Nonterminal? && tail[0].id < |nullable| && nullable[tail[0].id]
      && AllNullable(nullable, tail[1..]))
  }

  // The terminals a word derived from `tail` can start with, given FIRST of every nonterminal.
  function FirstOf(nullable: seq<bool>, first: seq<set<nat>>, tail: seq<Symbol>): set<nat>
    requires TailKnown(nullable, first, tail)
  {
    if tail == [] then {}
    else
      match tail[0]
      case Terminal(t) => {t}
      case Nonterminal(a) =>
        first[a] + if nullable[a] then FirstOf(nullable, first, tail[1..]) else {}
  }

  // The lookaheads a closure item inherits from the tail behind the dot of its parent.
  function TailFirst(nullable: seq<bool>, first: seq<set<nat>>, tail: seq<Symbol>, lookahead: Lookahead): set<Lookahead>
    requires TailKnown(nullable, first, tail)
  {
    (set t <- FirstOf(nullable, first, tail) :: On(t)) + if AllNullable(nullable, tail) then {lookahead} else {}
  }

  ghost predicate FirstKnown(g: ResidualGrammar, first: seq<set<nat>>) {
    InRange(g) && |first| == g.nonterminals
  }

  lemma RhsKnown(g: ResidualGrammar, first: seq<set<nat>>, p: nat, k: nat)
    requires FirstKnown(g, first) && p < |AugmentedProductions(g)| && k <= |AugmentedProductions(g)[p].rhs|
    ensures TailKnown(g.nullable, first, AugmentedProductions(g)[p].rhs[k..])
    ensures forall s <- AugmentedProductions(g)[p].rhs :: SymbolInRange(s, g.nonterminals, |g.terminals|)
    ensures p < |g.productions| ==> AugmentedProductions(g)[p].lhs < g.nonterminals
  {
    var rhs := AugmentedProductions(g)[p].rhs;
    if p < |g.productions| {
      assert g.productions[p] in g.productions;
    }
    assert forall s <- rhs[k..] :: s in rhs;
  }

  ghost predicate FirstClosed(g: ResidualGrammar, first: seq<set<nat>>) {
    && FirstKnown(g, first)
    && forall p: nat :: p < |g.productions| ==> FirstRule(g, first, p)
  }

  ghost predicate FirstRule(g: ResidualGrammar, first: seq<set<nat>>, p: nat)
    requires FirstKnown(g, first) && p < |g.productions|
  {
    RhsKnown(g, first, p, 0);
    assert AugmentedProductions(g)[p] == g.productions[p];
    assert g.productions[p].rhs[0..] == g.productions[p].rhs;
    FirstOf(g.nullable, first, g.productions[p].rhs) <= first[g.productions[p].lhs]
  }

  // ---------- Items ----------

  ghost predicate ItemInRange(g: ResidualGrammar, item: LrItem) {
    && item.production < |AugmentedProductions(g)|
    && item.dot <= |AugmentedProductions(g)[item.production].rhs|
    && (item.production == |g.productions| ==> item.lookahead == Eof)
  }

  function Next(ps: seq<Production>, item: LrItem): Option<Symbol> {
    if item.production < |ps| && item.dot < |ps[item.production].rhs| then
      Some(ps[item.production].rhs[item.dot])
    else
      None
  }

  ghost function ItemTail(g: ResidualGrammar, first: seq<set<nat>>, item: LrItem): set<Lookahead>
    requires FirstKnown(g, first) && ItemInRange(g, item) && Next(AugmentedProductions(g), item).Some?
  {
    RhsKnown(g, first, item.production, item.dot + 1);
    TailFirst(g.nullable, first, AugmentedProductions(g)[item.production].rhs[item.dot + 1..], item.lookahead)
  }

  function StartItem(g: ResidualGrammar): LrItem {
    LrItem(|g.productions|, 0, Eof)
  }

  function Moved(item: LrItem): LrItem {
    item.(dot := item.dot + 1)
  }

  // Production `p` of `a`, from its start and under lookahead `l`, is expected behind the dot of `item`.
  ghost predicate Expands(g: ResidualGrammar, first: seq<set<nat>>, item: LrItem, p: nat, l: Lookahead)
    requires FirstKnown(g, first) && ItemInRange(g, item)
  {
    && p < |g.productions|
    && Next(AugmentedProductions(g), item) == Some(Nonterminal(g.productions[p].lhs))
    && l in ItemTail(g, first, item)
  }

  // ---------- The merged automaton ----------

  ghost predicate StatesClosed(g: ResidualGrammar, first: seq<set<nat>>, states: seq<set<LrItem>>)
    requires FirstKnown(g, first)
  {
    && (forall m: nat, item :: m < |states| && item in states[m] ==> ItemInRange(g, item))
    && (forall m: nat, item, p: nat, l :: m < |states| && item in states[m] && Expands(g, first, item, p, l) ==>
          LrItem(p, 0, l) in states[m])
  }

  // Every symbol after a dot has an edge, along which the item moves.
  ghost predicate EdgesForward(g: ResidualGrammar, a: Automaton) {
    forall m: nat, item :: m < |a.states| && item in a.states[m] && Next(AugmentedProductions(g), item).Some? ==>
      EdgeFor(g, a, m, item)
  }

  ghost predicate EdgeFor(g: ResidualGrammar, a: Automaton, m: nat, item: LrItem)
    requires Next(AugmentedProductions(g), item).Some?
  {
    var s := Next(AugmentedProductions(g), item).value;
    (m, s) in a.edges && a.edges[(m, s)] < |a.states| && Moved(item) in a.states[a.edges[(m, s)]]
  }

  // An item behind an edge was one symbol earlier before it, under some lookahead.
  ghost predicate EdgesBackward(g: ResidualGrammar, a: Automaton) {
    && (forall e <- a.edges :: e.0 < |a.states| && a.edges[e] < |a.states|
                               && exists item ::
                                    item in a.states[e.0] && Next(AugmentedProductions(g), item) == Some(e.1))
    && (forall e, item :: e in a.edges && a.edges[e] < |a.states| && item in a.states[a.edges[e]] && item.dot > 0 ==>
          CameFrom(g, a, e, item))
  }

  ghost predicate HasCore(states: set<LrItem>, production: nat, dot: nat) {
    exists l :: LrItem(production, dot, l) in states
  }

  ghost predicate CameFrom(g: ResidualGrammar, a: Automaton, e: (nat, Symbol), item: LrItem) {
    && e.0 < |a.states|
    && item.dot > 0
    && Next(AugmentedProductions(g), item.(dot := item.dot - 1)) == Some(e.1)
    && HasCore(a.states[e.0], item.production, item.dot - 1)
  }

  predicate IsStart(g: ResidualGrammar, item: LrItem) {
    item.production == |g.productions|
  }

  // Items of one state, each at its start and expanded from the one before; the first is the start item or
  // came over an edge.
  ghost predicate Chained(g: ResidualGrammar, state: set<LrItem>, chain: seq<LrItem>) {
    && chain != []
    && chain[0] in state
    && (chain[0].dot > 0 || chain[0].production == |g.productions|)
    && (forall i :: 0 < i < |chain| ==> LinkedItems(g, state, chain[i - 1], chain[i]))
  }

  ghost predicate LinkedItems(g: ResidualGrammar, state: set<LrItem>, from: LrItem, to: LrItem) {
    && to in state && to.dot == 0 && to.production < |g.productions|
    && Next(AugmentedProductions(g), from) == Some(Nonterminal(g.productions[to.production].lhs))
  }

  ghost predicate Explained(g: ResidualGrammar, state: set<LrItem>, item: LrItem) {
    exists chain :: Chained(g, state, chain) && chain[|chain| - 1] == item
  }

  // Every item has such a chain; the start item is only in state 0, which holds only items at their start.
  ghost predicate StartsExplained(g: ResidualGrammar, a: Automaton) {
    && (forall m: nat, item :: m < |a.states| && item in a.states[m] ==> Explained(g, a.states[m], item))
    && (forall m: nat, item :: m < |a.states| && item in a.states[m] && item.dot == 0 && IsStart(g, item) ==> m == 0)
    && (forall item :: |a.states| > 0 && item in a.states[0] ==> item.dot == 0)
  }

  ghost predicate Awaits(g: ResidualGrammar, state: set<LrItem>, n: nat) {
    exists item :: item in state && Next(AugmentedProductions(g), item) == Some(Nonterminal(n))
  }

  ghost predicate AutomatonFor(g: ResidualGrammar, first: seq<set<nat>>, a: Automaton) {
    && WellFormed(g)
    && FirstClosed(g, first)
    && 0 < |a.states|
    && StartItem(g) in a.states[0]
    && StatesClosed(g, first, a.states)
    && EdgesForward(g, a)
    && EdgesBackward(g, a)
    && StartsExplained(g, a)
  }

  // ---------- The table ----------

  // What an item asks of its state's rows.
  ghost predicate RowServes(g: ResidualGrammar, a: Automaton, m: nat, item: LrItem, actions: map<Lookahead, Action>,
      gotos: map<nat, nat>)
  {
    match Next(AugmentedProductions(g), item)
    case Some(Terminal(t)) =>
      On(t) in actions && (m, Terminal(t)) in a.edges && actions[On(t)] == Shift(a.edges[(m, Terminal(t))])
    case Some(Nonterminal(n)) =>
      n in gotos && (m, Nonterminal(n)) in a.edges && gotos[n] == a.edges[(m, Nonterminal(n))]
    case None =>
      if item.production == |g.productions| && item.lookahead == Eof then
        Eof in actions && actions[Eof] == Accept
      else
        item.lookahead in actions && actions[item.lookahead] == Reduce(item.production)
  }

  ghost predicate IsFinished(g: ResidualGrammar, item: LrItem, p: nat) {
    item.production == p < |AugmentedProductions(g)| && item.dot == |AugmentedProductions(g)[p].rhs|
  }

  // Where an entry of a row comes from.
  ghost predicate ActionFrom(g: ResidualGrammar, a: Automaton, m: nat, l: Lookahead, action: Action)
    requires m < |a.states|
  {
    match action
    case Shift(q) => l.On? && (m, Terminal(l.terminal)) in a.edges && a.edges[(m, Terminal(l.terminal))] == q
    case Reduce(p) =>
      p < |g.productions| && exists item :: item in a.states[m] && IsFinished(g, item, p) && item.lookahead == l
    case Accept =>
      l == Eof && exists item :: item in a.states[m] && IsFinished(g, item, |g.productions|)
  }

  ghost predicate TableSound(g: ResidualGrammar, a: Automaton, table: LalrTable) {
    && |table.actions| == |a.states| == |table.gotos|
    && (forall m: nat, l :: m < |a.states| && l in table.actions[m] ==> ActionFrom(g, a, m, l, table.actions[m][l]))
    && (forall m: nat, n: nat :: m < |a.states| && n in table.gotos[m] ==>
          (m, Nonterminal(n)) in a.edges && table.gotos[m][n] == a.edges[(m, Nonterminal(n))])
    && (forall m: nat, n: nat :: m < |a.states| && Awaits(g, a.states[m], n) ==> n in table.gotos[m])
  }

  // Without conflicts every item got what it asked for.
  ghost predicate TableComplete(g: ResidualGrammar, a: Automaton, table: LalrTable) {
    && |table.actions| == |a.states| == |table.gotos|
    && forall m: nat, item :: m < |a.states| && item in a.states[m] ==>
         RowServes(g, a, m, item, table.actions[m], table.gotos[m])
  }

  // The action an item asks for, and under which lookahead.
  function Demand(g: ResidualGrammar, a: Automaton, m: nat, item: LrItem): Option<(Lookahead, Action)> {
    match Next(AugmentedProductions(g), item)
    case Some(Terminal(t)) =>
      if (m, Terminal(t)) in a.edges then Some((On(t), Shift(a.edges[(m, Terminal(t))]))) else None
    case Some(Nonterminal(_)) => None
    case None =>
      if item.production == |g.productions| && item.lookahead == Eof then Some((Eof, Accept))
      else Some((item.lookahead, Reduce(item.production)))
  }

  function KindOf(existing: Action, action: Action): ConflictKind {
    match (existing, action)
    case (Shift(_), Reduce(_)) => ShiftReduce
    case (Reduce(_), Shift(_)) => ShiftReduce
    case (Reduce(_), Reduce(_)) => ReduceReduce
    case _ => AcceptConflict
  }

  // A reported conflict: the row has one action and an item of the state asks for another.
  ghost predicate ConflictReal(g: ResidualGrammar, a: Automaton, m: nat, actions: map<Lookahead, Action>, c: Conflict)
    requires m < |a.states|
  {
    && c.state == m && c.first != c.second && c.kind == KindOf(c.first, c.second)
    && c.lookahead in actions && actions[c.lookahead] == c.first
    && exists item :: item in a.states[m] && Demand(g, a, m, item) == Some((c.lookahead, c.second))
  }

  // ---------- The machine ----------

  datatype Token = Token(terminal: nat, word: Word)

  datatype Move = Reduced(stack: seq<nat>) | Shifted(stack: seq<nat>) | Accepting | NoAction | Fault

  function FindAction(table: LalrTable, state: nat, l: Lookahead): Option<Action> {
    if state < |table.actions| && l in table.actions[state] then Some(table.actions[state][l]) else None
  }

  function FindGoto(table: LalrTable, state: nat, n: nat): Option<nat> {
    if state < |table.gotos| && n in table.gotos[state] then Some(table.gotos[state][n]) else None
  }

  // Pop the right-hand side of `p` and follow the goto of its left-hand side.
  function ReduceBy(ps: seq<Production>, table: LalrTable, stack: seq<nat>, p: nat): Option<seq<nat>> {
    if p >= |ps| || |ps[p].rhs| >= |stack| then
      None
    else
      var base := stack[..|stack| - |ps[p].rhs|];
      match FindGoto(table, base[|base| - 1], ps[p].lhs)
      case None => None
      case Some(target) => Some(base + [target])
  }

  function MoveOn(ps: seq<Production>, table: LalrTable, stack: seq<nat>, l: Lookahead): Move {
    if stack == [] then
      Fault
    else
      match FindAction(table, stack[|stack| - 1], l)
      case None => NoAction
      case Some(Shift(q)) => Shifted(stack + [q])
      case Some(Accept) => Accepting
      case Some(Reduce(p)) =>
        match ReduceBy(ps, table, stack, p)
        case None => Fault
        case Some(next) => Reduced(next)
  }

  function Ahead(input: seq<Token>, follow: Lookahead): Lookahead {
    if input == [] then follow else On(input[0].terminal)
  }

  // `n` moves over the input, which `follow` comes after but is not consumed.
  function Moves(ps: seq<Production>, table: LalrTable, stack: seq<nat>, input: seq<Token>, follow: Lookahead, n: nat)
    : Option<(seq<nat>, seq<Token>)>
    decreases n
  {
    if n == 0 then
      Some((stack, input))
    else
      match MoveOn(ps, table, stack, Ahead(input, follow))
      case Reduced(next) => Moves(ps, table, next, input, follow, n - 1)
      case Shifted(next) => if input == [] then None else Moves(ps, table, next, input[1..], follow, n - 1)
      case _ => None
  }

  // ---------- Tokens of a tree ----------

  function Tokens(t: Tree): seq<Token> {
    match t
    case Leaf(id, w) => [Token(id, w)]
    case Node(_, kids) => ForestTokens(kids)
  }

  function ForestTokens(f: Forest): seq<Token> {
    match f
    case Nil => []
    case Cons(t, rest) => Tokens(t) + ForestTokens(rest)
  }

  // Moves a tree costs: one shift per leaf, one reduction per node.
  function Size(t: Tree): nat {
    match t
    case Leaf(_, _) => 1
    case Node(_, kids) => 1 + ForestSize(kids)
  }

  function ForestSize(f: Forest): nat {
    match f
    case Nil => 0
    case Cons(t, rest) => Size(t) + ForestSize(rest)
  }

  function Spell(tokens: seq<Token>): Word {
    if tokens == [] then [] else tokens[0].word + Spell(tokens[1..])
  }
}
