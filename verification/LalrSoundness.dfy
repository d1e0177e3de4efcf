/**
 Every stack the machine can reach is a path of the automaton that spells derivations of the tokens it has
 consumed.  Hence no move faults, acceptance means the tokens are derivable, every reachable stack extends
 to a sentence, and reductions under any lookahead stop.
 */
module LalrSoundness {
  import opened Grammars
  import opened Terminals
  import opened ResidualGrammars
  import opened Lalr
  import opened LalrAutomaton

  lemma {:induction false} AppendTokens(f: Forest, h: Forest)
    ensures ForestTokens(Append(f, h)) == ForestTokens(f) + ForestTokens(h)
    ensures ForestSize(Append(f, h)) == ForestSize(f) + ForestSize(h)
  {
    match f
    case Nil =>
    case Cons(t, rest) => AppendTokens(rest, h);
  }

  lemma {:induction false} AppendAssociative(f: Forest, h: Forest, k: Forest)
    ensures Append(Append(f, h), k) == Append(f, Append(h, k))
  {
    match f
    case Nil =>
    case Cons(t, rest) => AppendAssociative(rest, h, k);
  }

  // ---------- Stacks as paths ----------

  ghost predicate Linked(a: Automaton, stack: seq<nat>, alpha: seq<Symbol>) {
    && |stack| == |alpha| + 1
    && stack[0] == 0
    && forall i :: 0 <= i < |alpha| ==> (stack[i], alpha[i]) in a.edges && a.edges[(stack[i], alpha[i])] == stack[i + 1]
  }

  // The stack spells `alpha`, and `f` derives the consumed tokens from it.
  ghost predicate StackFor(g: ResidualGrammar, a: Automaton, stack: seq<nat>, alpha: seq<Symbol>, f: Forest) {
    Linked(a, stack, alpha) && ForestFor(Augmented(g), f, alpha)
  }

  function Top(stack: seq<nat>): nat
    requires stack != []
  {
    stack[|stack| - 1]
  }

  lemma LinkedInRange(g: ResidualGrammar, first: seq<set<nat>>, a: Automaton, stack: seq<nat>, alpha: seq<Symbol>,
      i: nat)
    requires AutomatonFor(g, first, a) && Linked(a, stack, alpha) && i < |stack|
    ensures stack[i] < |a.states|
  {
    if i > 0 {
      var e := (stack[i - 1], alpha[i - 1]);
      assert e in a.edges;
    }
  }

  lemma LinkedPrefix(a: Automaton, stack: seq<nat>, alpha: seq<Symbol>, k: nat)
    requires Linked(a, stack, alpha) && k <= |alpha|
    ensures Linked(a, stack[..k + 1], alpha[..k])
  {
  }

  lemma LinkedPush(a: Automaton, stack: seq<nat>, alpha: seq<Symbol>, k: nat, s: Symbol, target: nat)
    requires Linked(a, stack, alpha) && k <= |alpha|
    requires (stack[k], s) in a.edges && a.edges[(stack[k], s)] == target
    ensures Linked(a, stack[..k + 1] + [target], alpha[..k] + [s])
  {
  }

  lemma LastLink(a: Automaton, stack: seq<nat>, alpha: seq<Symbol>)
    requires Linked(a, stack, alpha) && alpha != []
    ensures var k := |alpha| - 1;
            |stack| == k + 2 && (stack[k], alpha[k]) in a.edges && a.edges[(stack[k], alpha[k])] == stack[k + 1]
  {
  }

  lemma Backward(g: ResidualGrammar, first: seq<set<nat>>, a: Automaton, e: (nat, Symbol), item: LrItem)
    requires AutomatonFor(g, first, a) && e in a.edges && a.edges[e] < |a.states| && item in a.states[a.edges[e]]
    requires item.dot > 0
    ensures CameFrom(g, a, e, item)
  {
  }

  lemma InState(g: ResidualGrammar, first: seq<set<nat>>, a: Automaton, m: nat, item: LrItem)
    requires AutomatonFor(g, first, a) && m < |a.states| && item in a.states[m]
    ensures ItemInRange(g, item) && Explained(g, a.states[m], item)
    ensures item.dot == 0 && item.production == |g.productions| ==> m == 0
    ensures m == 0 ==> item.dot == 0
  {
  }

  lemma BottomEmpty(a: Automaton, stack: seq<nat>, alpha: seq<Symbol>)
    requires Linked(a, stack, alpha)
    ensures |stack| == |alpha| + 1 && (alpha == [] ==> Top(stack) == 0)
  {
  }

  lemma Previous(g: ResidualGrammar, first: seq<set<nat>>, a: Automaton, e: (nat, Symbol), item: LrItem)
      returns (prev: LrItem)
    requires AutomatonFor(g, first, a) && e in a.edges && a.edges[e] < |a.states| && item in a.states[a.edges[e]]
    requires item.dot > 0
    ensures e.0 < |a.states| && prev in a.states[e.0] && prev.production == item.production && prev.dot == item.dot - 1
    ensures Next(AugmentedProductions(g), prev) == Some(e.1)
  {
    hide AutomatonFor, AugmentedProductions;
    Backward(g, first, a, e, item);
    var l :| LrItem(item.production, item.dot - 1, l) in a.states[e.0];
    prev := LrItem(item.production, item.dot - 1, l);
  }

  // The symbols before the dot are the last ones of the stack, and the rule was started below them.
  lemma {:induction false} Backtrace(g: ResidualGrammar, first: seq<set<nat>>, a: Automaton, stack: seq<nat>,
      alpha: seq<Symbol>, item: LrItem)
    returns (base: LrItem)
    requires AutomatonFor(g, first, a) && Linked(a, stack, alpha)
    requires Top(stack) < |a.states| && item in a.states[Top(stack)]
    ensures item.production < |AugmentedProductions(g)| && item.dot <= |AugmentedProductions(g)[item.production].rhs|
    ensures item.dot <= |alpha|
    ensures alpha[|alpha| - item.dot..] == AugmentedProductions(g)[item.production].rhs[..item.dot]
    ensures stack[|alpha| - item.dot] < |a.states| && base in a.states[stack[|alpha| - item.dot]]
    ensures base.production == item.production && base.dot == 0
    decreases item.dot
  {
    hide AutomatonFor, Linked, Explained, AugmentedProductions;
    BottomEmpty(a, stack, alpha);
    InState(g, first, a, Top(stack), item);
    LinkedPrefix(a, stack, alpha, |alpha|);
    var rhs := AugmentedProductions(g)[item.production].rhs;
    if item.dot == 0 {
      base := item;
      assert alpha[|alpha|..] == [];
    } else {
      var k := |alpha| - 1;
      LastLink(a, stack, alpha);
      var prev := Previous(g, first, a, (stack[k], alpha[k]), item);
      LinkedPrefix(a, stack, alpha, k);
      base := Backtrace(g, first, a, stack[..k + 1], alpha[..k], prev);
      var d := item.dot;
      assert alpha[k] == rhs[d - 1];
      assert alpha[|alpha| - d..] == alpha[..k][k - (d - 1)..] + [alpha[k]];
      assert rhs[..d] == rhs[..d - 1] + [rhs[d - 1]];
    }
  }

  // A started rule is awaited where it was started.
  lemma StartAwaited(g: ResidualGrammar, first: seq<set<nat>>, a: Automaton, m: nat, item: LrItem)
    requires AutomatonFor(g, first, a) && m < |a.states| && item in a.states[m]
    requires item.dot == 0 && item.production < |g.productions|
    ensures Awaits(g, a.states[m], g.productions[item.production].lhs)
  {
    InState(g, first, a, m, item);
    var chain :| Chained(g, a.states[m], chain) && chain[|chain| - 1] == item;
    var k := |chain| - 1;
    assert k > 0;
    assert LinkedItems(g, a.states[m], chain[k - 1], chain[k]);
    assert k > 1 ==> LinkedItems(g, a.states[m], chain[k - 2], chain[k - 1]);
  }

  // A reduction the table asks for pops a whole right-hand side and finds its goto.
  lemma ReduceSound(g: ResidualGrammar, first: seq<set<nat>>, a: Automaton, table: LalrTable, stack: seq<nat>,
      alpha: seq<Symbol>, f: Forest, p: nat, l: Lookahead)
      returns (next: seq<nat>, beta: seq<Symbol>, h: Forest)
    requires AutomatonFor(g, first, a) && TableSound(g, a, table) && StackFor(g, a, stack, alpha, f)
    requires stack != [] && stack[|stack| - 1] < |a.states|
    requires FindAction(table, stack[|stack| - 1], l) == Some(Reduce(p))
    ensures p < |g.productions|
    ensures ReduceBy(AugmentedProductions(g), table, stack, p) == Some(next)
    ensures StackFor(g, a, next, beta, h)
    ensures ForestTokens(h) == ForestTokens(f) && ForestSize(h) == ForestSize(f) + 1
  {
    hide AutomatonFor, TableSound, Linked, ForestFor, Awaits, FindAction, FindGoto;
    BottomEmpty(a, stack, alpha);
    var item := ReducedItem(g, first, a, table, Top(stack), l, p);
    var ps := AugmentedProductions(g);
    var base := Backtrace(g, first, a, stack, alpha, item);
    var d := item.dot;
    var k := |alpha| - d;
    StartAwaited(g, first, a, stack[k], base);
    var n := g.productions[p].lhs;
    assert ps[p] == g.productions[p];
    GotoFound(g, a, table, stack[k], n);
    var target := a.edges[(stack[k], Nonterminal(n))];
    assert stack[..|stack| - d] == stack[..k + 1];
    next := stack[..k + 1] + [target];
    beta := alpha[..k] + [Nonterminal(n)];
    var left, right := SplitForest(Augmented(g), f, alpha, k);
    var node := Cons(Node(p, right), Nil);
    h := Append(left, node);
    assert alpha[k..] == g.productions[p].rhs;
    assert Augmented(g).productions[p] == g.productions[p];
    SingleTree(Augmented(g), Node(p, right), Nonterminal(n));
    AppendDerives(Augmented(g), left, alpha[..k], node, [Nonterminal(n)]);
    AppendTokens(left, right);
    AppendTokens(left, node);
    LinkedPush(a, stack, alpha, k, Nonterminal(n), target);
  }

  lemma ReducedItem(g: ResidualGrammar, first: seq<set<nat>>, a: Automaton, table: LalrTable, m: nat, l: Lookahead,
      p: nat)
    returns (item: LrItem)
    requires AutomatonFor(g, first, a) && TableSound(g, a, table) && m < |a.states|
    requires FindAction(table, m, l) == Some(Reduce(p))
    ensures p < |g.productions| && item in a.states[m] && item.production == p && item.dot == |g.productions[p].rhs|
  {
    assert ActionFrom(g, a, m, l, Reduce(p));
    item :| item in a.states[m] && IsFinished(g, item, p) && item.lookahead == l;
  }

  lemma GotoFound(g: ResidualGrammar, a: Automaton, table: LalrTable, m: nat, n: nat)
    requires TableSound(g, a, table) && m < |a.states| && Awaits(g, a.states[m], n)
    ensures (m, Nonterminal(n)) in a.edges && FindGoto(table, m, n) == Some(a.edges[(m, Nonterminal(n))])
  {
  }

  lemma ShiftEdge(g: ResidualGrammar, a: Automaton, table: LalrTable, m: nat, t: nat, q: nat)
    requires TableSound(g, a, table) && m < |a.states| && FindAction(table, m, On(t)) == Some(Shift(q))
    ensures (m, Terminal(t)) in a.edges && a.edges[(m, Terminal(t))] == q
  {
    assert ActionFrom(g, a, m, On(t), Shift(q));
  }

  lemma ShiftSound(g: ResidualGrammar, first: seq<set<nat>>, a: Automaton, table: LalrTable, stack: seq<nat>,
      alpha: seq<Symbol>, f: Forest, token: Token, q: nat) returns (beta: seq<Symbol>, h: Forest)
    requires AutomatonFor(g, first, a) && TableSound(g, a, table) && StackFor(g, a, stack, alpha, f)
    requires stack != [] && stack[|stack| - 1] < |a.states|
    requires FindAction(table, stack[|stack| - 1], On(token.terminal)) == Some(Shift(q))
    requires token.terminal < |g.terminals| && Matches(g.terminals[token.terminal], token.word)
    ensures StackFor(g, a, stack + [q], beta, h)
    ensures ForestTokens(h) == ForestTokens(f) + [token] && ForestSize(h) == ForestSize(f) + 1
  {
    hide AutomatonFor, TableSound, Linked, ForestFor, FindAction;
    BottomEmpty(a, stack, alpha);
    ShiftEdge(g, a, table, Top(stack), token.terminal, q);
    var leaf := Cons(Leaf(token.terminal, token.word), Nil);
    beta := alpha + [Terminal(token.terminal)];
    h := Append(f, leaf);
    SingleTree(Augmented(g), Leaf(token.terminal, token.word), Terminal(token.terminal));
    BottomEmpty(a, stack, alpha);
    LinkedPush(a, stack, alpha, |alpha|, Terminal(token.terminal), q);
    assert stack[..|alpha| + 1] == stack && alpha[..|alpha|] == alpha;
    AppendDerives(Augmented(g), f, alpha, leaf, [Terminal(token.terminal)]);
    AppendTokens(f, leaf);
    assert ForestTokens(leaf) == [token] by {
      assert Tokens(Leaf(token.terminal, token.word)) == [token];
    }
  }

  lemma StartRhs(g: ResidualGrammar)
    ensures |AugmentedProductions(g)| == |g.productions| + 1
    ensures AugmentedProductions(g)[|g.productions|].rhs[..1] == [Nonterminal(g.start)]
  {
  }

  // State 0 is only at the bottom.
  lemma BottomOnly(g: ResidualGrammar, first: seq<set<nat>>, a: Automaton, stack: seq<nat>, alpha: seq<Symbol>)
    requires AutomatonFor(g, first, a) && Linked(a, stack, alpha) && Top(stack) == 0
    ensures alpha == []
  {
    if alpha != [] {
      var k := |alpha| - 1;
      var e := (stack[k], alpha[k]);
      assert e in a.edges && a.edges[e] == 0;
      var item := EdgeItem(g, first, a, e);
      InState(g, first, a, 0, Moved(item));
    }
  }

  lemma EdgeItem(g: ResidualGrammar, first: seq<set<nat>>, a: Automaton, e: (nat, Symbol)) returns (item: LrItem)
    requires AutomatonFor(g, first, a) && e in a.edges
    ensures e.0 < |a.states| && item in a.states[e.0] && Next(AugmentedProductions(g), item) == Some(e.1)
    ensures a.edges[e] < |a.states| && Moved(item) in a.states[a.edges[e]]
  {
    item :| item in a.states[e.0] && Next(AugmentedProductions(g), item) == Some(e.1);
    assert EdgeFor(g, a, e.0, item);
  }

  lemma AcceptedItem(g: ResidualGrammar, a: Automaton, table: LalrTable, m: nat, l: Lookahead) returns (item: LrItem)
    requires TableSound(g, a, table) && m < |a.states| && FindAction(table, m, l) == Some(Accept)
    ensures l == Eof && item in a.states[m] && item.production == |g.productions| && item.dot == 1
  {
    assert ActionFrom(g, a, m, l, Accept);
    item :| item in a.states[m] && IsFinished(g, item, |g.productions|);
  }

  // Acceptance: exactly the start symbol is on the stack and nothing follows.
  lemma AcceptSound(g: ResidualGrammar, first: seq<set<nat>>, a: Automaton, table: LalrTable, stack: seq<nat>,
      alpha: seq<Symbol>, f: Forest, l: Lookahead)
    requires AutomatonFor(g, first, a) && TableSound(g, a, table) && StackFor(g, a, stack, alpha, f)
    requires Top(stack) < |a.states| && FindAction(table, Top(stack), l) == Some(Accept)
    ensures l == Eof && alpha == [Nonterminal(g.start)]
  {
    hide AutomatonFor, TableSound, Linked, ForestFor, Explained, FindAction, AugmentedProductions;
    BottomEmpty(a, stack, alpha);
    var item := AcceptedItem(g, a, table, Top(stack), l);
    var base := Backtrace(g, first, a, stack, alpha, item);
    var k := |alpha| - 1;
    InState(g, first, a, stack[k], base);
    BottomEmpty(a, stack, alpha);
    LinkedPrefix(a, stack, alpha, k);
    BottomOnly(g, first, a, stack[..k + 1], alpha[..k]);
    assert k == 0 && alpha[0..] == alpha;
    StartRhs(g);
  }

  // Any number of moves from the empty stack keeps the stack sound; the moves made are the tree nodes built.
  lemma StackTop(g: ResidualGrammar, first: seq<set<nat>>, a: Automaton, stack: seq<nat>, alpha: seq<Symbol>, f: Forest)
    requires AutomatonFor(g, first, a) && StackFor(g, a, stack, alpha, f)
    ensures stack != [] && stack[|stack| - 1] < |a.states| && Top(stack) == stack[|stack| - 1]
  {
    hide AutomatonFor;
    LinkedInRange(g, first, a, stack, alpha, |alpha|);
  }

  lemma {:induction false} MovesSound(g: ResidualGrammar, first: seq<set<nat>>, a: Automaton, table: LalrTable,
      stack: seq<nat>, alpha: seq<Symbol>, f: Forest, input: seq<Token>, b: Lookahead, n: nat)
    returns (beta: seq<Symbol>, h: Forest)
    requires AutomatonFor(g, first, a) && TableSound(g, a, table) && StackFor(g, a, stack, alpha, f)
    requires TokensFor(g, input)
    requires Moves(AugmentedProductions(g), table, stack, input, b, n).Some?
    ensures var (s, rest) := Moves(AugmentedProductions(g), table, stack, input, b, n).value;
            && StackFor(g, a, s, beta, h)
            && ForestTokens(h) + rest == ForestTokens(f) + input
            && ForestSize(h) == ForestSize(f) + n
    decreases n
  {
    hide *;
    var ps, l := AugmentedProductions(g), Ahead(input, b);
    if n == 0 {
      beta, h := alpha, f;
      NoMove(ps, table, stack, input, b);
    } else {
      StackTop(g, first, a, stack, alpha, f);
      FirstMove(ps, table, stack, input, b, n);
      match MoveOn(ps, table, stack, l)
      case Reduced(next) =>
        var p := FindAction(table, stack[|stack| - 1], l).value.production;
        var next', beta1, h1 := ReduceSound(g, first, a, table, stack, alpha, f, p, l);
        beta, h := MovesSound(g, first, a, table, next, beta1, h1, input, b, n - 1);
      case Shifted(next) =>
        var q := FindAction(table, stack[|stack| - 1], l).value.state;
        FirstToken(g, input);
        var beta1, h1 := ShiftSound(g, first, a, table, stack, alpha, f, input[0], q);
        beta, h := MovesSound(g, first, a, table, next, beta1, h1, input[1..], b, n - 1);
        assert [input[0]] + input[1..] == input;
    }
  }

  lemma NoMove(ps: seq<Production>, table: LalrTable, stack: seq<nat>, input: seq<Token>, b: Lookahead)
    ensures Moves(ps, table, stack, input, b, 0) == Some((stack, input))
  {
  }

  // What the first of `n` moves can be.
  lemma FirstMove(ps: seq<Production>, table: LalrTable, stack: seq<nat>, input: seq<Token>, b: Lookahead, n: nat)
    requires n > 0 && stack != [] && Moves(ps, table, stack, input, b, n).Some?
    ensures var l := Ahead(input, b);
            var action := FindAction(table, stack[|stack| - 1], l);
            && action.Some?
            && match MoveOn(ps, table, stack, l)
               case Reduced(next) => action.value.Reduce?
                 && ReduceBy(ps, table, stack, action.value.production) == Some(next)
                                     && Moves(ps, table, stack, input, b, n) == Moves(ps, table, next, input, b, n - 1)
               case Shifted(next) => action.value.Shift? && next == stack + [action.value.state]
                                     && input != [] && l == On(input[0].terminal)
                                     && Moves(ps, table, stack, input, b, n) ==
                                        Moves(ps, table, next, input[1..], b, n - 1)
               case _ => false
  {
  }

  lemma FirstToken(g: ResidualGrammar, input: seq<Token>)
    requires TokensFor(g, input) && input != []
    ensures input[0].terminal < |g.terminals| && Matches(g.terminals[input[0].terminal], input[0].word)
    ensures TokensFor(g, input[1..])
  {
    assert input[0] in input;
    assert forall k <- input[1..] :: k in input;
  }

  // No reachable stack faults under any lookahead.
  lemma NoFault(g: ResidualGrammar, first: seq<set<nat>>, a: Automaton, table: LalrTable, stack: seq<nat>,
      alpha: seq<Symbol>, f: Forest, l: Lookahead)
    requires AutomatonFor(g, first, a) && TableSound(g, a, table) && StackFor(g, a, stack, alpha, f)
    ensures MoveOn(AugmentedProductions(g), table, stack, l) != Fault
  {
    hide AutomatonFor, TableSound, ForestFor;
    LinkedInRange(g, first, a, stack, alpha, |alpha|);
    match FindAction(table, Top(stack), l)
    case Some(Reduce(p)) =>
      var next, beta, h := ReduceSound(g, first, a, table, stack, alpha, f, p, l);
    case _ =>
  }
}
