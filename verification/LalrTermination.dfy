/**
 From viability to termination: under any one lookahead, from any stack reached by shifting, the machine
 makes only finitely many reductions, and the bound does not depend on the lookahead.
 */
module LalrTermination {
  import opened Grammars
  import opened ResidualGrammars
  import opened Lalr
  import opened LalrAutomaton
  import opened LalrSoundness
  import opened LalrViability

  // A rule whose right-hand side is derived in two parts.
  lemma RuleNode(g: ResidualGrammar, p: nat, d: nat, left: Forest, rest: Forest) returns (node: Tree)
    requires p < |AugmentedProductions(g)| && d <= |AugmentedProductions(g)[p].rhs|
    requires ForestFor(Augmented(g), left, AugmentedProductions(g)[p].rhs[..d])
    requires ForestFor(Augmented(g), rest, AugmentedProductions(g)[p].rhs[d..])
    ensures TreeFor(Augmented(g), node, Nonterminal(AugmentedProductions(g)[p].lhs))
    ensures Tokens(node) == ForestTokens(left) + ForestTokens(rest)
  {
    var rhs := AugmentedProductions(g)[p].rhs;
    AppendDerives(Augmented(g), left, rhs[..d], rest, rhs[d..]);
    assert rhs[..d] + rhs[d..] == rhs;
    AppendTokens(left, rest);
    node := Node(p, Append(left, rest));
  }

  lemma PlugForest(g: Cfg, t: Tree, right: Forest, rhs: seq<Symbol>, d: nat)
    requires d < |rhs| && TreeFor(g, t, rhs[d]) && ForestFor(g, right, rhs[d + 1..])
    ensures ForestFor(g, Cons(t, right), rhs[d..])
    ensures ForestTokens(Cons(t, right)) == Tokens(t) + ForestTokens(right)
  {
    assert rhs[d..][1..] == rhs[d + 1..];
  }

  // Plugging a tree into the hole gives a tree of the start production.
  lemma {:induction false} FillFrames(g: ResidualGrammar, frames: Frames, n: nat, t: Tree) returns (root: Tree)
    requires FramesFor(g, frames, n) && TreeFor(Augmented(g), t, Nonterminal(n))
    ensures TreeFor(Augmented(g), root, Nonterminal(g.nonterminals))
    ensures Tokens(root) == ForestTokens(LeftForest(frames)) + Tokens(t) + RightTokens(frames)
    decreases frames
  {
    hide TreeFor, ForestFor, Augmented, AugmentedProductions;
    match frames
    case Outermost =>
      root := t;
    case Under(above, p, d, left, right) =>
      PlugForest(Augmented(g), t, right, AugmentedProductions(g)[p].rhs, d);
      var node := RuleNode(g, p, d, left, Cons(t, right));
      AppendTokens(LeftForest(above), left);
      root := FillFrames(g, above, AugmentedProductions(g)[p].lhs, node);
      Regroup(ForestTokens(LeftForest(above)), ForestTokens(left), Tokens(t), ForestTokens(right), RightTokens(above));
  }

  lemma Regroup<T>(a: seq<T>, b: seq<T>, c: seq<T>, d: seq<T>, e: seq<T>)
    ensures a + (b + (c + d)) + e == (a + b) + c + (d + e)
  {
  }

  lemma InRangeLhs(g: ResidualGrammar, p: nat)
    requires InRange(g) && p < |g.productions|
    ensures AugmentedProductions(g)[p].lhs < g.nonterminals
  {
    assert g.productions[p] in g.productions;
  }

  // A tree of the start production is a tree of the start symbol.
  lemma StripStart(g: ResidualGrammar, root: Tree) returns (t: Tree)
    requires InRange(g) && TreeFor(Augmented(g), root, Nonterminal(g.nonterminals))
    ensures TreeFor(Augmented(g), t, Nonterminal(g.start)) && Tokens(t) == Tokens(root)
  {
    var p := root.production;
    if p < |g.productions| {
      InRangeLhs(g, p);
    }
    SingleForest(Augmented(g), root.kids, Nonterminal(g.start));
    t := root.kids.head;
    assert ForestTokens(root.kids) == Tokens(t) + ForestTokens(Nil);
  }

  // The whole sentence around a split stack.
  lemma SplitSentence(g: ResidualGrammar, frames: Frames, p: nat, d: nat, left: Forest, rest: Forest,
      alpha: seq<Symbol>, f: Forest)
    returns (t: Tree)
    requires InRange(g) && Splits(g, frames, p, d, left, alpha, f)
    requires ForestFor(Augmented(g), rest, AugmentedProductions(g)[p].rhs[d..])
    ensures TreeFor(Augmented(g), t, Nonterminal(g.start))
    ensures Tokens(t) == ForestTokens(f) + (ForestTokens(rest) + RightTokens(frames))
  {
    hide *;
    SplitFacts(g, frames, p, d, left, alpha, f);
    var node := RuleNode(g, p, d, left, rest);
    var root := FillFrames(g, frames, AugmentedProductions(g)[p].lhs, node);
    AppendTokens(LeftForest(frames), left);
    t := StripStart(g, root);
  }

  lemma SplitFacts(g: ResidualGrammar, frames: Frames, p: nat, d: nat, left: Forest, alpha: seq<Symbol>, f: Forest)
    requires Splits(g, frames, p, d, left, alpha, f)
    ensures p < |AugmentedProductions(g)| && d <= |AugmentedProductions(g)[p].rhs|
    ensures FramesFor(g, frames, AugmentedProductions(g)[p].lhs)
    ensures ForestFor(Augmented(g), left, AugmentedProductions(g)[p].rhs[..d])
    ensures LeftSymbols(AugmentedProductions(g), frames) + AugmentedProductions(g)[p].rhs[..d] == alpha
    ensures Append(LeftForest(frames), left) == f
  {
  }

  // Viability: a sentence whose derivation drives the machine through exactly this stack.
  lemma StackViable(g: ResidualGrammar, first: seq<set<nat>>, a: Automaton, table: LalrTable, stack: seq<nat>,
      alpha: seq<Symbol>, f: Forest)
    returns (t: Tree, y: seq<Token>)
    requires Usable(g, first, a, table) && Productive(g) && StackFor(g, a, stack, alpha, f)
    ensures TreeFor(Augmented(g), t, Nonterminal(g.start)) && Tokens(t) == ForestTokens(f) + y
    ensures Moves(AugmentedProductions(g), table, [0], ForestTokens(f), Ahead(y, Eof), ForestSize(f)) ==
            Some((stack, []))
  {
    UsableFacts(g, first, a, table);
    UsableAutomaton(g, first, a, table);
    hide Productive, Linked, Usable, AutomatonFor, Splits, FramesFor, ForestFor, TreeFor, Moves, RuleFollows;
    hide WellFormed, FirstClosed, FirstKnown, InRange, Augmented;
    var ps := AugmentedProductions(g);
    var frames, p, d, left := TraceStack(g, first, a, stack, alpha, f);
    SplitFacts(g, frames, p, d, left, alpha, f);
    ProductionFacts(g, first, a, p);
    var rest := RestForest(g, p, d);
    var l := HoleFollow(frames);
    var c := Ahead(ForestTokens(rest), l);
    y := ForestTokens(rest) + RightTokens(frames);
    assert c == Ahead(y, Eof);
    RestFollows(g, first, p, d, rest, l);
    var stack1 := FramesDrive(g, first, a, table, frames, p, d, left, c);
    LinkedUnique(a, stack, stack1, alpha);
    t := SplitSentence(g, frames, p, d, left, rest, alpha, f);
  }

  lemma RestForest(g: ResidualGrammar, p: nat, d: nat) returns (rest: Forest)
    requires InRange(g) && Productive(g) && p < |AugmentedProductions(g)| && d <= |AugmentedProductions(g)[p].rhs|
    requires forall s <- AugmentedProductions(g)[p].rhs :: SymbolInRange(s, g.nonterminals, |g.terminals|)
    ensures ForestFor(Augmented(g), rest, AugmentedProductions(g)[p].rhs[d..])
  {
    rest := ProductiveForest(g, AugmentedProductions(g)[p].rhs[d..]);
  }

  lemma UsableAutomaton(g: ResidualGrammar, first: seq<set<nat>>, a: Automaton, table: LalrTable)
    requires Usable(g, first, a, table)
    ensures AutomatonFor(g, first, a) && TableSound(g, a, table)
  {
  }

  lemma RestFollows(g: ResidualGrammar, first: seq<set<nat>>, p: nat, d: nat, rest: Forest, l: Lookahead)
    requires WellFormed(g) && FirstClosed(g, first)
    requires p < |AugmentedProductions(g)| && d <= |AugmentedProductions(g)[p].rhs|
    requires ForestFor(Augmented(g), rest, AugmentedProductions(g)[p].rhs[d..])
    ensures RuleFollows(g, first, p, d, l, Ahead(ForestTokens(rest), l))
  {
    var rhs := AugmentedProductions(g)[p].rhs;
    RhsKnown(g, first, p, d);
    RhsKnown(g, first, p, |rhs|);
    assert rhs[d..] + [] == rhs[d..] && rhs[|rhs|..] == [];
    ForestAhead(g, first, rest, rhs[d..], [], l, l);
  }

  // ---------- Reductions under one lookahead ----------

  // `n` reductions in a row.
  function Reductions(ps: seq<Production>, table: LalrTable, stack: seq<nat>, l: Lookahead, n: nat): Option<seq<nat>>
    decreases n
  {
    if n == 0 then
      Some(stack)
    else
      match MoveOn(ps, table, stack, l)
      case Reduced(next) => Reductions(ps, table, next, l, n - 1)
      case _ => None
  }

  // After exactly `n` reductions the machine does something else.
  ghost predicate SettlesAfter(ps: seq<Production>, table: LalrTable, stack: seq<nat>, l: Lookahead, n: nat) {
    var r := Reductions(ps, table, stack, l, n);
    r.Some? && !MoveOn(ps, table, r.value, l).Reduced?
  }

  // After exactly `n` reductions it shifts or accepts.
  ghost predicate ActsAfter(ps: seq<Production>, table: LalrTable, stack: seq<nat>, l: Lookahead, n: nat) {
    var r := Reductions(ps, table, stack, l, n);
    r.Some? && var move := MoveOn(ps, table, r.value, l); move.Shifted? || move.Accepting?
  }

  lemma {:induction false} ReductionsAdd(ps: seq<Production>, table: LalrTable, stack: seq<nat>, l: Lookahead, n: nat,
      m: nat)
    requires Reductions(ps, table, stack, l, n).Some?
    ensures Reductions(ps, table, stack, l, n + m) ==
            Reductions(ps, table, Reductions(ps, table, stack, l, n).value, l, m)
    decreases n
  {
    if n > 0 {
      ReductionsAdd(ps, table, MoveOn(ps, table, stack, l).stack, l, n - 1, m);
    }
  }

  lemma {:induction false} SettlesUnique(ps: seq<Production>, table: LalrTable, stack: seq<nat>, l: Lookahead, n: nat,
      m: nat)
    requires SettlesAfter(ps, table, stack, l, n) && Reductions(ps, table, stack, l, m).Some?
    ensures m <= n
  {
    if m > n {
      ReductionsAdd(ps, table, stack, l, n, m - n);
    }
  }

  // With nothing left to shift, moves are reductions.
  lemma {:induction false} MovesAreReductions(ps: seq<Production>, table: LalrTable, stack: seq<nat>, l: Lookahead,
      n: nat)
    ensures Moves(ps, table, stack, [], l, n)
            == (match Reductions(ps, table, stack, l, n) case None => None case Some(s) => Some((s, [])))
    decreases n
  {
    if n > 0 {
      match MoveOn(ps, table, stack, l)
      case Reduced(next) => MovesAreReductions(ps, table, next, l, n - 1);
      case _ =>
    }
  }

  // A run to acceptance settles under its first lookahead, by shifting or accepting.
  lemma {:induction false} AcceptedRunSettles(ps: seq<Production>, table: LalrTable, stack: seq<nat>, y: seq<Token>,
      m: nat, s: seq<nat>) returns (n: nat)
    requires Moves(ps, table, stack, y, Eof, m) == Some((s, [])) && MoveOn(ps, table, s, Eof) == Accepting
    ensures ActsAfter(ps, table, stack, Ahead(y, Eof), n)
    decreases m
  {
    if m == 0 {
      n := 0;
    } else {
      match MoveOn(ps, table, stack, Ahead(y, Eof))
      case Reduced(next) =>
        var k := AcceptedRunSettles(ps, table, next, y, m - 1, s);
        n := k + 1;
      case Shifted(next) => n := 0;
    }
  }

  // The stack is what remains after moving over `u`, whatever comes next: nothing, or a shift, was last.
  ghost predicate ReachedBy(ps: seq<Production>, table: LalrTable, stack: seq<nat>, u: seq<Token>, k: nat) {
    forall l :: Moves(ps, table, [0], u, l, k) == Some((stack, []))
  }

  ghost function SettleCount(ps: seq<Production>, table: LalrTable, stack: seq<nat>, l: Lookahead): nat {
    if n: nat :| SettlesAfter(ps, table, stack, l, n) then n else 0
  }

  // The counts of all lookaheads that settle, added up.
  ghost function CountsBelow(ps: seq<Production>, table: LalrTable, stack: seq<nat>, t: nat): nat {
    if t == 0 then SettleCount(ps, table, stack, Eof)
    else CountsBelow(ps, table, stack, t - 1) + SettleCount(ps, table, stack, On(t - 1))
  }

  ghost function ReductionBound(g: ResidualGrammar, table: LalrTable, stack: seq<nat>): nat {
    CountsBelow(AugmentedProductions(g), table, stack, |g.terminals|)
  }

  lemma {:induction false} CountBelow(ps: seq<Production>, table: LalrTable, stack: seq<nat>, t: nat, l: Lookahead)
    requires l.Eof? || l.terminal < t
    ensures SettleCount(ps, table, stack, l) <= CountsBelow(ps, table, stack, t)
  {
    if t > 0 && l != On(t - 1) {
      CountBelow(ps, table, stack, t - 1, l);
    }
  }

  lemma StartReached(ps: seq<Production>, table: LalrTable)
    ensures ReachedBy(ps, table, [0], [], 0)
  {
  }

  // A reached stack spells derivations of what was consumed, one node per move.
  lemma ReachedSound(g: ResidualGrammar, first: seq<set<nat>>, a: Automaton, table: LalrTable, stack: seq<nat>,
      u: seq<Token>, k: nat, b: Lookahead, n: nat) returns (s: seq<nat>, alpha: seq<Symbol>, f: Forest)
    requires AutomatonFor(g, first, a) && TableSound(g, a, table) && TokensFor(g, u)
    requires ReachedBy(AugmentedProductions(g), table, stack, u, k)
    requires Reductions(AugmentedProductions(g), table, stack, b, n).Some?
    ensures Reductions(AugmentedProductions(g), table, stack, b, n) == Some(s)
    ensures Moves(AugmentedProductions(g), table, [0], u, b, k + n) == Some((s, []))
    ensures StackFor(g, a, s, alpha, f) && ForestTokens(f) == u && ForestSize(f) == k + n
  {
    hide AutomatonFor, TableSound, TokensFor;
    var ps := AugmentedProductions(g);
    s := Reductions(ps, table, stack, b, n).value;
    MovesAreReductions(ps, table, stack, b, n);
    assert Moves(ps, table, [0], u, b, k) == Some((stack, []));
    RunAdd(ps, table, [0], u, b, k, n);
    assert StackFor(g, a, [0], [], Nil);
    alpha, f := MovesSound(g, first, a, table, [0], [], Nil, u, b, k + n);
    assert ForestTokens(f) + [] == ForestTokens(f) && [] + u == u;
  }

  // However many reductions are made under one lookahead, some lookahead makes at least as many and settles.
  lemma ReductionsMatched(g: ResidualGrammar, first: seq<set<nat>>, a: Automaton, table: LalrTable, stack: seq<nat>,
      u: seq<Token>, k: nat, b: Lookahead, n: nat) returns (c: Lookahead, m: nat)
    requires Usable(g, first, a, table) && Productive(g) && TokensFor(g, u)
    requires ReachedBy(AugmentedProductions(g), table, stack, u, k)
    requires Reductions(AugmentedProductions(g), table, stack, b, n).Some?
    ensures n <= m && ActsAfter(AugmentedProductions(g), table, stack, c, m)
    ensures c.Eof? || c.terminal < |g.terminals|
  {
    hide *;
    UsableAutomaton(g, first, a, table);
    var s, alpha, f := ReachedSound(g, first, a, table, stack, u, k, b, n);
    var t, y := StackViable(g, first, a, table, s, alpha, f);
    c := Ahead(y, Eof);
    StartDrives(g, first, a, table, t);
    TreeTokens(g, t, Nonterminal(g.start));
    AheadKnown(g, Tokens(t), |u|, y);
    m := SameUnder(g, table, stack, u, k, n, s, t, y);
  }

  lemma AheadKnown(g: ResidualGrammar, w: seq<Token>, i: nat, y: seq<Token>)
    requires TokensFor(g, w) && i <= |w| && w[i..] == y
    ensures var c := Ahead(y, Eof); c.Eof? || c.terminal < |g.terminals|
  {
    if y != [] {
      assert w[i] in w;
    }
  }

  // The machine does under the sentence's lookahead what it did before, and then settles.
  lemma SameUnder(g: ResidualGrammar, table: LalrTable, stack: seq<nat>, u: seq<Token>, k: nat, n: nat, s: seq<nat>,
      t: Tree, y: seq<Token>) returns (m: nat)
    requires ReachedBy(AugmentedProductions(g), table, stack, u, k) && Tokens(t) == u + y
    requires Moves(AugmentedProductions(g), table, [0], u, Ahead(y, Eof), k + n) == Some((s, []))
    requires exists end :: Moves(AugmentedProductions(g), table, [0], Tokens(t), Eof, Size(t)) == Some((end, []))
               && MoveOn(AugmentedProductions(g), table, end, Eof) == Accepting
    ensures n <= m && ActsAfter(AugmentedProductions(g), table, stack, Ahead(y, Eof), m)
  {
    var ps := AugmentedProductions(g);
    hide MoveOn, AugmentedProductions, Moves, Reductions, ActsAfter;
    var c := Ahead(y, Eof);
    var end :| Moves(ps, table, [0], Tokens(t), Eof, Size(t)) == Some((end, []))
      && MoveOn(ps, table, end, Eof) == Accepting;
    assert Moves(ps, table, [0], u, c, k) == Some((stack, []));
    RunAdd(ps, table, [0], u, c, k, n);
    MovesAreReductions(ps, table, stack, c, n);
    assert Reductions(ps, table, stack, c, n) == Some(s);
    RunThen(ps, table, [0], u, y, Eof, k + n);
    assert [] + y == y;
    SizeEnough(ps, table, u + y, k + n, Size(t), s, y, end);
    var rest := AcceptedRunSettles(ps, table, s, y, Size(t) - (k + n), end);
    ReductionsAdd(ps, table, stack, c, n, rest);
    m := n + rest;
    SettlesLater(ps, table, stack, c, n, rest, s);
  }

  lemma SettlesLater(ps: seq<Production>, table: LalrTable, stack: seq<nat>, c: Lookahead, n: nat, rest: nat,
      s: seq<nat>)
    requires Reductions(ps, table, stack, c, n) == Some(s) && ActsAfter(ps, table, s, c, rest)
    ensures ActsAfter(ps, table, stack, c, n + rest)
  {
    ReductionsAdd(ps, table, stack, c, n, rest);
  }

  // A run that accepts after `total` moves is not over before, so an intermediate point is behind it.
  lemma SizeEnough(ps: seq<Production>, table: LalrTable, w: seq<Token>, k: nat, total: nat, s: seq<nat>,
      y: seq<Token>, end: seq<nat>)
    requires Moves(ps, table, [0], w, Eof, k) == Some((s, y))
    requires Moves(ps, table, [0], w, Eof, total) == Some((end, [])) && MoveOn(ps, table, end, Eof) == Accepting
    ensures k <= total && Moves(ps, table, s, y, Eof, total - k) == Some((end, []))
  {
    if k > total {
      RunAdd(ps, table, [0], w, Eof, total, k - total);
    } else {
      RunAdd(ps, table, [0], w, Eof, k, total - k);
    }
  }

  // Reductions stop: a reached stack allows at most `ReductionBound` of them, under every lookahead.
  lemma ReductionsBounded(g: ResidualGrammar, first: seq<set<nat>>, a: Automaton, table: LalrTable, stack: seq<nat>,
      u: seq<Token>, k: nat, b: Lookahead, n: nat)
    requires Usable(g, first, a, table) && Productive(g) && TokensFor(g, u)
    requires ReachedBy(AugmentedProductions(g), table, stack, u, k)
    requires Reductions(AugmentedProductions(g), table, stack, b, n).Some?
    ensures n <= ReductionBound(g, table, stack)
  {
    var c, m := ReductionsMatched(g, first, a, table, stack, u, k, b, n);
    hide Usable, Productive, TokensFor, ReachedBy, MoveOn, AugmentedProductions;
    SettledCount(AugmentedProductions(g), table, stack, c, m);
    CountBelow(AugmentedProductions(g), table, stack, |g.terminals|, c);
  }

  lemma SettledCount(ps: seq<Production>, table: LalrTable, stack: seq<nat>, c: Lookahead, m: nat)
    requires ActsAfter(ps, table, stack, c, m)
    ensures SettleCount(ps, table, stack, c) == m
  {
    assert SettlesAfter(ps, table, stack, c, m);
    var count := SettleCount(ps, table, stack, c);
    assert SettlesAfter(ps, table, stack, c, count);
    SettlesUnique(ps, table, stack, c, count, m);
    SettlesUnique(ps, table, stack, c, m, count);
  }
}
