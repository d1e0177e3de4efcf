/**
 The shift-reduce machine over a merged automaton.

 Completeness: where an item expects a symbol, the machine carries every derivation of that symbol over to
 the symbol's edge, in exactly as many moves as the derivation has nodes.  Soundness: every stack is a path
 of the automaton that spells derivations of the consumed tokens, and no move ever faults.
 */
module LalrAutomaton {
  import opened Grammars
  import opened Terminals
  import opened ResidualGrammars
  import opened Lalr

  // ---------- Tokens and yields ----------

  lemma SpellConcat(u: seq<Token>, v: seq<Token>)
    ensures Spell(u + v) == Spell(u) + Spell(v)
  {
    if u == [] {
      assert u + v == v;
    } else {
      assert (u + v)[1..] == u[1..] + v;
      SpellConcat(u[1..], v);
    }
  }

  lemma {:induction false} TreeSpelled(t: Tree)
    ensures Spell(Tokens(t)) == Yield(t)
    decreases t
  {
    match t
    case Leaf(_, w) => assert Tokens(t)[1..] == [] && w + [] == w;
    case Node(_, kids) => ForestSpelled(kids);
  }

  lemma {:induction false} ForestSpelled(f: Forest)
    ensures Spell(ForestTokens(f)) == ForestYield(f)
    decreases f
  {
    match f
    case Nil =>
    case Cons(t, rest) =>
      TreeSpelled(t);
      ForestSpelled(rest);
      SpellConcat(Tokens(t), ForestTokens(rest));
  }

  // A well-formed token is a word of its terminal, so it is not empty.
  ghost predicate TokensFor(g: ResidualGrammar, u: seq<Token>) {
    forall k <- u :: k.terminal < |g.terminals| && Matches(g.terminals[k.terminal], k.word)
  }

  lemma {:induction false} TreeTokens(g: ResidualGrammar, t: Tree, s: Symbol)
    requires TreeFor(Augmented(g), t, s)
    ensures TokensFor(g, Tokens(t))
    decreases t
  {
    match t
    case Leaf(_, _) =>
    case Node(p, kids) => ForestTokensFor(g, kids, Augmented(g).productions[p].rhs);
  }

  lemma {:induction false} ForestTokensFor(g: ResidualGrammar, f: Forest, alpha: seq<Symbol>)
    requires ForestFor(Augmented(g), f, alpha)
    ensures TokensFor(g, ForestTokens(f))
    decreases f
  {
    match f
    case Nil =>
    case Cons(t, rest) =>
      TreeTokens(g, t, alpha[0]);
      ForestTokensFor(g, rest, alpha[1..]);
  }

  // No tokens, no bytes: such a tree derives the empty word.
  lemma EmptyTokens(g: ResidualGrammar, t: Tree, n: nat)
    requires WellFormed(g) && n < g.nonterminals && TreeFor(Augmented(g), t, Nonterminal(n)) && Tokens(t) == []
    ensures g.nullable[n]
  {
    TreeSpelled(t);
    AugmentedGenerates(g, n, []);
  }

  // ---------- FIRST covers every derivation ----------

  // The first token of a derived word, or what follows it, is among the lookaheads of the tail.
  lemma {:induction false} ForestAhead(g: ResidualGrammar, first: seq<set<nat>>, f: Forest, gamma: seq<Symbol>,
      rest: seq<Symbol>, l: Lookahead, b: Lookahead)
    requires WellFormed(g) && FirstClosed(g, first) && TailKnown(g.nullable, first, gamma + rest)
    requires TailKnown(g.nullable, first, rest)
    requires ForestFor(Augmented(g), f, gamma) && b in TailFirst(g.nullable, first, rest, l)
    ensures Ahead(ForestTokens(f), b) in TailFirst(g.nullable, first, gamma + rest, l)
    decreases f, 1
  {
    match f
    case Nil => assert gamma + rest == rest;
    case Cons(t, more) =>
      var tail := gamma + rest;
      assert tail[0] == gamma[0] && tail[1..] == gamma[1..] + rest;
      assert tail[0] in tail && forall s <- tail[1..] :: s in tail;
      match t
      case Leaf(id, w) =>
      case Node(p, kids) =>
        var n := gamma[0].id;
        if Tokens(t) == [] {
          EmptyTokens(g, t, n);
          ForestAhead(g, first, more, gamma[1..], rest, l, b);
        } else {
          TreeFirst(g, first, t, n);
          assert ForestTokens(f)[0] == Tokens(t)[0];
        }
  }

  lemma {:induction false} TreeFirst(g: ResidualGrammar, first: seq<set<nat>>, t: Tree, n: nat)
    requires WellFormed(g) && FirstClosed(g, first) && n < g.nonterminals
    requires TreeFor(Augmented(g), t, Nonterminal(n)) && Tokens(t) != []
    ensures Tokens(t)[0].terminal in first[n]
    decreases t
  {
    var p := t.production;
    assert p < |g.productions| && AugmentedProductions(g)[p] == g.productions[p];
    assert FirstRule(g, first, p);
    RhsKnown(g, first, p, 0);
    var rhs := g.productions[p].rhs;
    assert rhs[0..] == rhs && rhs + [] == rhs;
    ForestAhead(g, first, t.kids, rhs, [], Eof, Eof);
    assert On(Tokens(t)[0].terminal) in TailFirst(g.nullable, first, rhs, Eof);
  }

  // ---------- Moving along ----------

  lemma {:induction false} RunAdd(ps: seq<Production>, table: LalrTable, stack: seq<nat>, input: seq<Token>,
      b: Lookahead, n: nat, m: nat)
    requires Moves(ps, table, stack, input, b, n).Some?
    ensures var (s, u) := Moves(ps, table, stack, input, b, n).value;
            Moves(ps, table, stack, input, b, n + m) == Moves(ps, table, s, u, b, m)
    decreases n
  {
    if n > 0 {
      match MoveOn(ps, table, stack, Ahead(input, b))
      case Reduced(next) => RunAdd(ps, table, next, input, b, n - 1, m);
      case Shifted(next) => RunAdd(ps, table, next, input[1..], b, n - 1, m);
    }
  }

  // More input behind a run changes nothing as long as its first token is what the run looked ahead at.
  lemma {:induction false} RunThen(ps: seq<Production>, table: LalrTable, stack: seq<nat>, u: seq<Token>,
      v: seq<Token>, b: Lookahead, n: nat)
    requires Moves(ps, table, stack, u, Ahead(v, b), n).Some?
    ensures var (s, rest) := Moves(ps, table, stack, u, Ahead(v, b), n).value;
            Moves(ps, table, stack, u + v, b, n) == Some((s, rest + v))
    decreases n
  {
    if n > 0 {
      assert Ahead(u + v, b) == Ahead(u, Ahead(v, b)) by {
        assert u == [] ==> u + v == v;
      }
      match MoveOn(ps, table, stack, Ahead(u, Ahead(v, b)))
      case Reduced(next) => RunThen(ps, table, next, u, v, b, n - 1);
      case Shifted(next) =>
        assert (u + v)[1..] == u[1..] + v;
        RunThen(ps, table, next, u[1..], v, b, n - 1);
    }
  }

  // Two runs in a row.
  lemma RunSequence(ps: seq<Production>, table: LalrTable, s0: seq<nat>, u: seq<Token>, n: nat, s1: seq<nat>,
      v: seq<Token>, m: nat, s2: seq<nat>, b: Lookahead)
    requires Moves(ps, table, s0, u, Ahead(v, b), n) == Some((s1, []))
    requires Moves(ps, table, s1, v, b, m) == Some((s2, []))
    ensures Moves(ps, table, s0, u + v, b, n + m) == Some((s2, []))
  {
    RunThen(ps, table, s0, u, v, b, n);
    assert [] + v == v;
    RunAdd(ps, table, s0, u + v, b, n, m);
  }

  // ---------- Paths ----------

  // `path` lists the states reached from `from` along `symbols`.
  ghost predicate Path(a: Automaton, from: nat, symbols: seq<Symbol>, path: seq<nat>)
    decreases |symbols|
  {
    |path| == |symbols| &&
    (symbols != [] ==> (from, symbols[0]) in a.edges && a.edges[(from, symbols[0])] == path[0]
                       && Path(a, path[0], symbols[1..], path[1..]))
  }

  function End(from: nat, path: seq<nat>): nat {
    if path == [] then from else path[|path| - 1]
  }

  // ---------- Completeness ----------

  ghost predicate Usable(g: ResidualGrammar, first: seq<set<nat>>, a: Automaton, table: LalrTable) {
    AutomatonFor(g, first, a) && TableComplete(g, a, table) && TableSound(g, a, table)
  }

  lemma UsableFacts(g: ResidualGrammar, first: seq<set<nat>>, a: Automaton, table: LalrTable)
    requires Usable(g, first, a, table)
    ensures WellFormed(g) && InRange(g) && FirstClosed(g, first) && FirstKnown(g, first) && 0 < |a.states|
    ensures |table.actions| == |a.states| == |table.gotos| && StartItem(g) in a.states[0]
  {
  }

  lemma ItemFacts(g: ResidualGrammar, first: seq<set<nat>>, a: Automaton, table: LalrTable, m: nat, item: LrItem)
    requires Usable(g, first, a, table) && m < |a.states| && item in a.states[m]
    ensures ItemInRange(g, item) && m < |table.actions| == |table.gotos|
    ensures RowServes(g, a, m, item, table.actions[m], table.gotos[m])
    ensures Next(AugmentedProductions(g), item).Some? ==> EdgeFor(g, a, m, item)
  {
  }

  lemma ItemExpands(g: ResidualGrammar, first: seq<set<nat>>, a: Automaton, table: LalrTable, m: nat, item: LrItem,
      p: nat, l: Lookahead)
    requires Usable(g, first, a, table) && m < |a.states| && item in a.states[m]
    requires FirstKnown(g, first) && ItemInRange(g, item) && Expands(g, first, item, p, l)
    ensures LrItem(p, 0, l) in a.states[m]
  {
  }

  // The symbol after the dot and the lookaheads behind it.
  ghost predicate Follows(g: ResidualGrammar, first: seq<set<nat>>, item: LrItem, n: nat, b: Lookahead)
    requires FirstKnown(g, first) && ItemInRange(g, item)
  {
    && item.dot + n <= |AugmentedProductions(g)[item.production].rhs|
    && (RhsKnown(g, first, item.production, item.dot + n);
        b in TailFirst(g.nullable, first, AugmentedProductions(g)[item.production].rhs[item.dot + n..], item.lookahead))
  }

  lemma {:induction false} TreeDrives(g: ResidualGrammar, first: seq<set<nat>>, a: Automaton, table: LalrTable,
      stack: seq<nat>, item: LrItem, t: Tree, b: Lookahead)
    requires Usable(g, first, a, table) && FirstKnown(g, first)
    requires stack != [] && stack[|stack| - 1] < |a.states| && item in a.states[stack[|stack| - 1]]
    requires ItemInRange(g, item) && Next(AugmentedProductions(g), item).Some?
    requires TreeFor(Augmented(g), t, Next(AugmentedProductions(g), item).value)
    requires Follows(g, first, item, 1, b)
    ensures var top := stack[|stack| - 1];
            EdgeFor(g, a, top, item) &&
            Moves(AugmentedProductions(g), table, stack, Tokens(t), b, Size(t))
            == Some((stack + [a.edges[(top, Next(AugmentedProductions(g), item).value)]], []))
    decreases t
  {
    hide Usable;
    var ps := AugmentedProductions(g);
    var top := stack[|stack| - 1];
    ItemFacts(g, first, a, table, top, item);
    match t
    case Leaf(id, w) =>
      var target := a.edges[(top, Terminal(id))];
      assert Tokens(t)[1..] == [];
      assert Moves(ps, table, stack + [target], [], b, 0) == Some((stack + [target], []));
    case Node(p, kids) =>
      NodeDrives(g, first, a, table, stack, item, p, kids, b);
  }

  lemma {:induction false} NodeDrives(g: ResidualGrammar, first: seq<set<nat>>, a: Automaton, table: LalrTable,
      stack: seq<nat>, item: LrItem, p: nat, kids: Forest, b: Lookahead)
    requires Usable(g, first, a, table) && FirstKnown(g, first)
    requires stack != [] && stack[|stack| - 1] < |a.states| && item in a.states[stack[|stack| - 1]]
    requires ItemInRange(g, item) && p < |AugmentedProductions(g)|
    requires Next(AugmentedProductions(g), item) == Some(Nonterminal(AugmentedProductions(g)[p].lhs))
    requires ForestFor(Augmented(g), kids, AugmentedProductions(g)[p].rhs) && Follows(g, first, item, 1, b)
    ensures var top := stack[|stack| - 1];
            (top, Nonterminal(AugmentedProductions(g)[p].lhs)) in a.edges &&
            Moves(AugmentedProductions(g), table, stack, ForestTokens(kids), b, 1 + ForestSize(kids))
            == Some((stack + [a.edges[(top, Nonterminal(AugmentedProductions(g)[p].lhs))]], []))
    decreases kids, 1
  {
    hide Usable;
    var ps := AugmentedProductions(g);
    var top := stack[|stack| - 1];
    ItemFacts(g, first, a, table, top, item);
    NextKnown(g, first, item);
    assert p < |g.productions|;
    var start := LrItem(p, 0, b);
    assert Expands(g, first, item, p, b);
    ItemExpands(g, first, a, table, top, item, p, b);
    ItemFacts(g, first, a, table, top, start);
    var rhs := ps[p].rhs;
    assert rhs[0..|rhs|] == rhs && rhs[|rhs|..] == [];
    assert Follows(g, first, start, |rhs|, b);
    var path := ForestDrives(g, first, a, table, stack, start, kids, |rhs|, b);
    var done := LrItem(p, |rhs|, b);
    ItemFacts(g, first, a, table, End(top, path), done);
    ReducesBack(ps, table, stack, path, p, b);
    RunAdd(ps, table, stack, ForestTokens(kids), b, ForestSize(kids), 1);
  }

  // Reducing what was pushed since `stack` goes back to it and over the goto.
  lemma ReducesBack(ps: seq<Production>, table: LalrTable, stack: seq<nat>, path: seq<nat>, p: nat, b: Lookahead)
    requires stack != [] && p < |ps| && |path| == |ps[p].rhs|
    requires FindAction(table, End(stack[|stack| - 1], path), b) == Some(Reduce(p))
    requires FindGoto(table, stack[|stack| - 1], ps[p].lhs).Some?
    ensures Moves(ps, table, stack + path, [], b, 1) ==
            Some((stack + [FindGoto(table, stack[|stack| - 1], ps[p].lhs).value], []))
  {
    var full, target := stack + path, FindGoto(table, stack[|stack| - 1], ps[p].lhs).value;
    assert full[|full| - 1] == End(stack[|stack| - 1], path);
    assert full[..|full| - |path|] == stack;
    assert MoveOn(ps, table, full, b) == Reduced(stack + [target]);
    assert Moves(ps, table, stack + [target], [], b, 0) == Some((stack + [target], []));
  }

  lemma NextKnown(g: ResidualGrammar, first: seq<set<nat>>, item: LrItem)
    requires FirstKnown(g, first) && ItemInRange(g, item) && Next(AugmentedProductions(g), item).Some?
    ensures SymbolInRange(Next(AugmentedProductions(g), item).value, g.nonterminals, |g.terminals|)
    ensures AugmentedProductions(g)[|g.productions|].lhs == g.nonterminals
  {
    RhsKnown(g, first, item.production, 0);
    var rhs := AugmentedProductions(g)[item.production].rhs;
    assert rhs[item.dot] in rhs;
  }

  // What follows the first symbol is the start of the rest, or what follows all of it.
  lemma FollowsSplit(g: ResidualGrammar, first: seq<set<nat>>, item: LrItem, more: Forest, n: nat, b: Lookahead)
    requires WellFormed(g) && FirstClosed(g, first) && ItemInRange(g, item) && n > 0 && Follows(g, first, item, n, b)
    requires ForestFor(Augmented(g), more, AugmentedProductions(g)[item.production].rhs[item.dot + 1..item.dot + n])
    ensures Follows(g, first, item, 1, Ahead(ForestTokens(more), b))
    ensures Follows(g, first, Moved(item), n - 1, b)
  {
    var rhs := AugmentedProductions(g)[item.production].rhs;
    RhsKnown(g, first, item.production, item.dot + 1);
    RhsKnown(g, first, item.production, item.dot + n);
    var gamma := rhs[item.dot + 1..item.dot + n];
    assert rhs[item.dot + 1..] == gamma + rhs[item.dot + n..];
    ForestAhead(g, first, more, gamma, rhs[item.dot + n..], item.lookahead, b);
  }

  lemma PathCons(a: Automaton, from: nat, symbols: seq<Symbol>, target: nat, rest: seq<nat>)
    requires symbols != [] && (from, symbols[0]) in a.edges && a.edges[(from, symbols[0])] == target
    requires Path(a, target, symbols[1..], rest)
    ensures Path(a, from, symbols, [target] + rest) && End(from, [target] + rest) == End(target, rest)
  {
    assert ([target] + rest)[1..] == rest;
  }

  lemma {:induction false} ForestDrives(g: ResidualGrammar, first: seq<set<nat>>, a: Automaton, table: LalrTable,
      stack: seq<nat>, item: LrItem, f: Forest, n: nat, b: Lookahead) returns (path: seq<nat>)
    requires Usable(g, first, a, table) && FirstKnown(g, first)
    requires stack != [] && stack[|stack| - 1] < |a.states| && item in a.states[stack[|stack| - 1]]
    requires ItemInRange(g, item) && item.dot + n <= |AugmentedProductions(g)[item.production].rhs|
    requires ForestFor(Augmented(g), f, AugmentedProductions(g)[item.production].rhs[item.dot..item.dot + n])
    requires Follows(g, first, item, n, b)
    ensures Path(a, stack[|stack| - 1], AugmentedProductions(g)[item.production].rhs[item.dot..item.dot + n], path)
    ensures End(stack[|stack| - 1], path) < |a.states|
    ensures item.(dot := item.dot + n) in a.states[End(stack[|stack| - 1], path)]
    ensures Moves(AugmentedProductions(g), table, stack, ForestTokens(f), b, ForestSize(f)) == Some((stack + path, []))
    decreases f, 0
  {
    hide Usable, Follows, AutomatonFor, MoveOn, TreeFor, RowServes, TailKnown, FirstKnown, Augmented, WellFormed;
    var ps := AugmentedProductions(g);
    var top := stack[|stack| - 1];
    var rhs := ps[item.production].rhs;
    var gamma := rhs[item.dot..item.dot + n];
    match f
    case Nil =>
      assert |gamma| == 0;
      path := [];
      assert stack + path == stack;
    case Cons(t, more) =>
      hide Moves;
      assert |gamma| == n && gamma[0] == rhs[item.dot] && gamma[1..] == rhs[item.dot + 1..item.dot + n];
      UsableFacts(g, first, a, table);
      var c := Ahead(ForestTokens(more), b);
      FollowsSplit(g, first, item, more, n, b);
      TreeDrives(g, first, a, table, stack, item, t, c);
      var target := a.edges[(top, gamma[0])];
      var next := Moved(item);
      ItemFacts(g, first, a, table, top, item);
      ItemFacts(g, first, a, table, target, next);
      var stack1 := stack + [target];
      var path1 := ForestDrives(g, first, a, table, stack1, next, more, n - 1, b);
      path := [target] + path1;
      assert stack1 + path1 == stack + path;
      PathCons(a, top, gamma, target, path1);
      RunSequence(ps, table, stack, Tokens(t), Size(t), stack1, ForestTokens(more), ForestSize(more), stack + path, b);
      assert ForestTokens(f) == Tokens(t) + ForestTokens(more) && ForestSize(f) == Size(t) + ForestSize(more);
      assert next.(dot := next.dot + (n - 1)) == item.(dot := item.dot + n);
  }

  // The machine accepts the tokens of every derivation of the start symbol.
  lemma StartDrives(g: ResidualGrammar, first: seq<set<nat>>, a: Automaton, table: LalrTable, t: Tree)
    requires Usable(g, first, a, table) && TreeFor(Augmented(g), t, Nonterminal(g.start))
    ensures exists stack ::
              && Moves(AugmentedProductions(g), table, [0], Tokens(t), Eof, Size(t)) == Some((stack, []))
              && MoveOn(AugmentedProductions(g), table, stack, Eof) == Accepting
  {
    hide Usable;
    UsableFacts(g, first, a, table);
    var item := StartItem(g);
    ItemFacts(g, first, a, table, 0, item);
    assert Follows(g, first, item, 1, Eof) by {
      RhsKnown(g, first, item.production, 1);
    }
    TreeDrives(g, first, a, table, [0], item, t, Eof);
    var target := a.edges[(0, Nonterminal(g.start))];
    ItemFacts(g, first, a, table, target, Moved(item));
    assert MoveOn(AugmentedProductions(g), table, [0, target], Eof) == Accepting;
    assert [0] + [target] == [0, target];
  }
}
