/**
 In a productive grammar every reachable stack is a viable prefix: some sentence drives the machine through
 exactly that stack.  Two consequences: the machine is never stuck for good, and under any single lookahead
 it makes only finitely many reductions, bounded before the run by the counts of the lookaheads that settle.
 */
module LalrViability {
  import opened Grammars
  import opened ResidualGrammars
  import opened Lalr
  import opened LalrAutomaton
  import opened LalrSoundness

  // Unfinished rules from the start production down, with what is left and right of each hole.
  datatype Frames = Outermost | Under(above: Frames, production: nat, dot: nat, left: Forest, right: Forest)

  // The frames lead to a hole for nonterminal `n`.
  ghost predicate FramesFor(g: ResidualGrammar, frames: Frames, n: nat) {
    match frames
    case Outermost => n == g.nonterminals
    case Under(above, p, d, left, right) =>
      var ps := AugmentedProductions(g);
      && p < |ps| && d < |ps[p].rhs| && ps[p].rhs[d] == Nonterminal(n)
      && ForestFor(Augmented(g), left, ps[p].rhs[..d])
      && ForestFor(Augmented(g), right, ps[p].rhs[d + 1..])
      && FramesFor(g, above, ps[p].lhs)
  }

  function LeftForest(frames: Frames): Forest {
    match frames
    case Outermost => Nil
    case Under(above, _, _, left, _) => Append(LeftForest(above), left)
  }

  function LeftSymbols(ps: seq<Production>, frames: Frames): seq<Symbol> {
    match frames
    case Outermost => []
    case Under(above, p, d, _, _) =>
      LeftSymbols(ps, above) + if p < |ps| && d <= |ps[p].rhs| then ps[p].rhs[..d] else []
  }

  function RightTokens(frames: Frames): seq<Token> {
    match frames
    case Outermost => []
    case Under(above, _, _, _, right) => ForestTokens(right) + RightTokens(above)
  }

  // The lookahead right of the hole.
  function HoleFollow(frames: Frames): Lookahead {
    Ahead(RightTokens(frames), Eof)
  }

  // ---------- Reading the frames off a stack ----------

  ghost predicate Splits(g: ResidualGrammar, frames: Frames, p: nat, d: nat, left: Forest, alpha: seq<Symbol>,
      f: Forest)
  {
    var ps := AugmentedProductions(g);
    && p < |ps| && d <= |ps[p].rhs|
    && FramesFor(g, frames, ps[p].lhs)
    && ForestFor(Augmented(g), left, ps[p].rhs[..d])
    && LeftSymbols(ps, frames) + ps[p].rhs[..d] == alpha
    && Append(LeftForest(frames), left) == f
  }

  lemma ProductionFacts(g: ResidualGrammar, first: seq<set<nat>>, a: Automaton, p: nat)
    requires AutomatonFor(g, first, a) && p < |AugmentedProductions(g)|
    ensures forall s <- AugmentedProductions(g)[p].rhs :: SymbolInRange(s, g.nonterminals, |g.terminals|)
    ensures InRange(g) && |AugmentedProductions(g)| == |g.productions| + 1
    ensures p < |g.productions| ==> AugmentedProductions(g)[p] == g.productions[p]
    ensures p == |g.productions| ==> AugmentedProductions(g)[p].lhs == g.nonterminals
  {
    RhsKnown(g, first, p, 0);
  }

  // One closure step adds a frame with nothing left of the next hole.
  lemma LinkFrame(g: ResidualGrammar, first: seq<set<nat>>, a: Automaton, frames: Frames, from: LrItem, left: Forest,
      to: LrItem, m: nat, alpha: seq<Symbol>, f: Forest) returns (next: Frames)
    requires AutomatonFor(g, first, a) && Productive(g) && m < |a.states|
    requires LinkedItems(g, a.states[m], from, to)
    requires Splits(g, frames, from.production, from.dot, left, alpha, f)
    ensures Splits(g, next, to.production, 0, Nil, alpha, f)
  {
    hide AutomatonFor, Productive;
    var ps := AugmentedProductions(g);
    ProductionFacts(g, first, a, from.production);
    ProductionFacts(g, first, a, to.production);
    var rhs := ps[from.production].rhs;
    var right := ProductiveForest(g, rhs[from.dot + 1..]);
    next := Under(frames, from.production, from.dot, left, right);
    assert ps[to.production].rhs[..0] == [];
    AppendNil(LeftForest(next));
    assert alpha + [] == alpha;
  }

  lemma {:induction false} AppendNil(f: Forest)
    ensures Append(f, Nil) == f
  {
    match f
    case Nil =>
    case Cons(_, rest) => AppendNil(rest);
  }

  lemma {:induction false} ChainFrames(g: ResidualGrammar, first: seq<set<nat>>, a: Automaton, frames: Frames,
      left: Forest, chain: seq<LrItem>, k: nat, m: nat, alpha: seq<Symbol>, f: Forest) returns (next: Frames)
    requires AutomatonFor(g, first, a) && Productive(g) && m < |a.states|
    requires Chained(g, a.states[m], chain) && 0 < k < |chain|
    requires Splits(g, frames, chain[0].production, chain[0].dot, left, alpha, f)
    ensures Splits(g, next, chain[k].production, 0, Nil, alpha, f)
    decreases k
  {
    hide AutomatonFor, Productive, Splits;
    assert LinkedItems(g, a.states[m], chain[k - 1], chain[k]);
    if k == 1 {
      next := LinkFrame(g, first, a, frames, chain[0], left, chain[1], m, alpha, f);
    } else {
      var before := ChainFrames(g, first, a, frames, left, chain, k - 1, m, alpha, f);
      assert LinkedItems(g, a.states[m], chain[k - 2], chain[k - 1]);
      next := LinkFrame(g, first, a, before, chain[k - 1], Nil, chain[k], m, alpha, f);
    }
  }

  // The stack below a started rule, read as frames leading to that rule.
  lemma {:induction false} TraceStart(g: ResidualGrammar, first: seq<set<nat>>, a: Automaton, stack: seq<nat>,
      alpha: seq<Symbol>, f: Forest, item: LrItem)
    returns (frames: Frames)
    requires AutomatonFor(g, first, a) && Productive(g) && StackFor(g, a, stack, alpha, f)
    requires Top(stack) < |a.states| && item in a.states[Top(stack)] && item.dot == 0
    ensures Splits(g, frames, item.production, 0, Nil, alpha, f)
    decreases |alpha|, 1
  {
    hide AutomatonFor, Productive, Splits, ForestFor, Linked;
    BottomEmpty(a, stack, alpha);
    var m := Top(stack);
    InState(g, first, a, m, item);
    if item.production == |g.productions| {
      BottomOnly(g, first, a, stack, alpha);
      frames := Outermost;
      StartSplits(g, first, a, f);
    } else {
      var chain: seq<LrItem> :| Chained(g, a.states[m], chain) && chain[|chain| - 1] == item;
      if chain[0].dot > 0 {
        var inner, left := TraceMoved(g, first, a, stack, alpha, f, chain[0]);
        frames := ChainFrames(g, first, a, inner, left, chain, |chain| - 1, m, alpha, f);
      } else {
        InState(g, first, a, m, chain[0]);
        BottomOnly(g, first, a, stack, alpha);
        StartSplits(g, first, a, f);
        frames := ChainFrames(g, first, a, Outermost, Nil, chain, |chain| - 1, m, alpha, f);
      }
    }
  }

  lemma StartSplits(g: ResidualGrammar, first: seq<set<nat>>, a: Automaton, f: Forest)
    requires AutomatonFor(g, first, a) && ForestFor(Augmented(g), f, [])
    ensures Splits(g, Outermost, |g.productions|, 0, Nil, [], f)
  {
    assert f == Nil;
    assert AugmentedProductions(g)[|g.productions|].rhs[..0] == [];
  }

  lemma {:induction false} TraceMoved(g: ResidualGrammar, first: seq<set<nat>>, a: Automaton, stack: seq<nat>,
      alpha: seq<Symbol>, f: Forest, item: LrItem)
    returns (frames: Frames, left: Forest)
    requires AutomatonFor(g, first, a) && Productive(g) && StackFor(g, a, stack, alpha, f)
    requires Top(stack) < |a.states| && item in a.states[Top(stack)] && item.dot > 0
    ensures Splits(g, frames, item.production, item.dot, left, alpha, f)
    decreases |alpha|, 0
  {
    hide AutomatonFor, Productive, Splits, ForestFor, Linked;
    BottomEmpty(a, stack, alpha);
    var base := Backtrace(g, first, a, stack, alpha, item);
    var k := |alpha| - item.dot;
    var f0: Forest;
    f0, left := SplitForest(Augmented(g), f, alpha, k);
    LinkedPrefix(a, stack, alpha, k);
    frames := TraceStart(g, first, a, stack[..k + 1], alpha[..k], f0, base);
    ExtendSplit(g, frames, item, left, alpha, k, f0, f);
  }

  lemma ExtendSplit(g: ResidualGrammar, frames: Frames, item: LrItem, left: Forest, alpha: seq<Symbol>, k: nat,
      f0: Forest, f: Forest)
    requires k <= |alpha| && Splits(g, frames, item.production, 0, Nil, alpha[..k], f0)
    requires item.dot <= |AugmentedProductions(g)[item.production].rhs|
    requires alpha[k..] == AugmentedProductions(g)[item.production].rhs[..item.dot]
    requires ForestFor(Augmented(g), left, alpha[k..]) && f == Append(f0, left)
    ensures Splits(g, frames, item.production, item.dot, left, alpha, f)
  {
    AppendNil(LeftForest(frames));
    var rhs := AugmentedProductions(g)[item.production].rhs;
    assert rhs[..0] == [];
    assert alpha[..k] + alpha[k..] == alpha;
  }

  // Every reachable stack splits into frames and a started rule at its top.
  lemma TraceStack(g: ResidualGrammar, first: seq<set<nat>>, a: Automaton, stack: seq<nat>, alpha: seq<Symbol>,
      f: Forest)
    returns (frames: Frames, p: nat, d: nat, left: Forest)
    requires AutomatonFor(g, first, a) && Productive(g) && StackFor(g, a, stack, alpha, f)
    ensures Splits(g, frames, p, d, left, alpha, f)
  {
    hide AutomatonFor, Productive, Splits, ForestFor, Linked;
    BottomEmpty(a, stack, alpha);
    LinkedInRange(g, first, a, stack, alpha, |alpha|);
    if alpha == [] {
      StartSplits(g, first, a, f);
      frames, p, d, left := Outermost, |g.productions|, 0, Nil;
    } else {
      LastLink(a, stack, alpha);
      var k := |alpha| - 1;
      var item := EdgeItem(g, first, a, (stack[k], alpha[k]));
      p, d := item.production, item.dot + 1;
      frames, left := TraceMoved(g, first, a, stack, alpha, f, Moved(item));
    }
  }

  // ---------- Driving the machine to the hole ----------

  lemma {:induction false} NullableTail(g: ResidualGrammar, first: seq<set<nat>>, alpha: seq<Symbol>)
    requires WellFormed(g) && AllNullable(g.nullable, alpha)
    ensures Derives(Augmented(g), alpha, [])
    decreases |alpha|
  {
    if alpha == [] {
      DerivesEmpty(Augmented(g));
    } else {
      var n := alpha[0].id;
      AugmentedGenerates(g, n, []);
      DerivesNonterminal(Augmented(g), n, []);
      NullableTail(g, first, alpha[1..]);
      DerivesConcat(Augmented(g), [alpha[0]], [], alpha[1..], []);
      assert [alpha[0]] + alpha[1..] == alpha;
    }
  }

  // What can start the right-hand side of a rule, followed by what follows its left-hand side, can start
  // the left-hand side in its parent.
  lemma FirstThroughRule(g: ResidualGrammar, first: seq<set<nat>>, q: nat, tail: seq<Symbol>, l: Lookahead,
      c: Lookahead, b: Lookahead)
    requires WellFormed(g) && FirstClosed(g, first) && q < |g.productions|
    requires TailKnown(g.nullable, first, g.productions[q].rhs) && TailKnown(g.nullable, first, tail)
    requires TailKnown(g.nullable, first, [Nonterminal(g.productions[q].lhs)] + tail)
    requires b in TailFirst(g.nullable, first, g.productions[q].rhs, c)
    requires c in TailFirst(g.nullable, first, tail, l)
    ensures b in TailFirst(g.nullable, first, [Nonterminal(g.productions[q].lhs)] + tail, l)
  {
    var n := g.productions[q].lhs;
    var whole := [Nonterminal(n)] + tail;
    assert whole[0] == Nonterminal(n) && whole[1..] == tail;
    assert FirstRule(g, first, q);
    if b.On? && b.terminal in FirstOf(g.nullable, first, g.productions[q].rhs) {
    } else {
      NullableTail(g, first, g.productions[q].rhs);
      assert AugmentedProductions(g)[q] == g.productions[q];
      DerivesProduction(Augmented(g), q, []);
      AugmentedGenerates(g, n, []);
    }
  }

  ghost predicate RuleFollows(g: ResidualGrammar, first: seq<set<nat>>, p: nat, d: nat, l: Lookahead, b: Lookahead)
    requires FirstKnown(g, first) && p < |AugmentedProductions(g)| && d <= |AugmentedProductions(g)[p].rhs|
  {
    RhsKnown(g, first, p, d);
    b in TailFirst(g.nullable, first, AugmentedProductions(g)[p].rhs[d..], l)
  }

  // The frame above sees, before the hole, what the rule in the hole starts with.
  lemma OuterFollows(g: ResidualGrammar, first: seq<set<nat>>, frames: Frames, q: nat, d: nat, left: Forest,
      b: Lookahead)
    requires WellFormed(g) && FirstClosed(g, first) && frames.Under?
    requires q < |g.productions| && FramesFor(g, frames, g.productions[q].lhs)
    requires d <= |AugmentedProductions(g)[q].rhs| && ForestFor(Augmented(g), left, AugmentedProductions(g)[q].rhs[..d])
    requires RuleFollows(g, first, q, d, HoleFollow(frames), b)
    ensures RuleFollows(g, first, frames.production, frames.dot, HoleFollow(frames.above), Ahead(ForestTokens(left), b))
    ensures RuleFollows(g, first, frames.production, frames.dot + 1, HoleFollow(frames.above), HoleFollow(frames))
  {
    hide TailFirst, TailKnown, ForestFor;
    InnerFollows(g, first, q, d, left, HoleFollow(frames), b);
    RightFollows(g, first, frames, g.productions[q].lhs);
    var ps := AugmentedProductions(g);
    var outer := ps[frames.production].rhs;
    assert ps[q] == g.productions[q];
    RhsKnown(g, first, q, 0);
    RhsKnown(g, first, frames.production, frames.dot);
    RhsKnown(g, first, frames.production, frames.dot + 1);
    assert ps[q].rhs[0..] == g.productions[q].rhs;
    assert outer[frames.dot..] == [Nonterminal(g.productions[q].lhs)] + outer[frames.dot + 1..];
    FirstThroughRule(g, first, q, outer[frames.dot + 1..], HoleFollow(frames.above), HoleFollow(frames),
      Ahead(ForestTokens(left), b));
  }

  lemma InnerFollows(g: ResidualGrammar, first: seq<set<nat>>, q: nat, d: nat, left: Forest, l: Lookahead, b: Lookahead)
    requires WellFormed(g) && FirstClosed(g, first) && q < |g.productions|
    requires d <= |AugmentedProductions(g)[q].rhs| && ForestFor(Augmented(g), left, AugmentedProductions(g)[q].rhs[..d])
    requires RuleFollows(g, first, q, d, l, b)
    ensures RuleFollows(g, first, q, 0, l, Ahead(ForestTokens(left), b))
  {
    hide TailFirst, TailKnown, ForestFor;
    var rhs := AugmentedProductions(g)[q].rhs;
    RhsKnown(g, first, q, d);
    RhsKnown(g, first, q, 0);
    assert rhs[..d] + rhs[d..] == rhs && rhs[0..] == rhs;
    ForestAhead(g, first, left, rhs[..d], rhs[d..], l, b);
  }

  lemma EmptyFollow(g: ResidualGrammar, first: seq<set<nat>>, l: Lookahead)
    requires FirstKnown(g, first)
    ensures TailKnown(g.nullable, first, []) && l in TailFirst(g.nullable, first, [], l)
  {
  }

  // Right of the hole stands what the rest of its rule and the frames above start with.
  lemma RightFollows(g: ResidualGrammar, first: seq<set<nat>>, frames: Frames, n: nat)
    requires WellFormed(g) && FirstClosed(g, first) && frames.Under? && FramesFor(g, frames, n)
    ensures RuleFollows(g, first, frames.production, frames.dot + 1, HoleFollow(frames.above), HoleFollow(frames))
  {
    hide TailFirst, TailKnown, ForestFor;
    var tail := AugmentedProductions(g)[frames.production].rhs[frames.dot + 1..];
    var l := HoleFollow(frames.above);
    RhsKnown(g, first, frames.production, frames.dot + 1);
    EmptyFollow(g, first, l);
    assert tail + [] == tail;
    ForestAhead(g, first, frames.right, tail, [], l, l);
    assert Ahead(ForestTokens(frames.right), l) == HoleFollow(frames) by {
      assert ForestTokens(frames.right) == [] ==> RightTokens(frames) == RightTokens(frames.above);
    }
  }

  // The machine reads everything left of a hole and stands on the item the hole belongs to.
  lemma {:induction false} FramesDrive(g: ResidualGrammar, first: seq<set<nat>>, a: Automaton, table: LalrTable,
      frames: Frames, p: nat, d: nat, left: Forest, b: Lookahead) returns (stack: seq<nat>)
    requires Usable(g, first, a, table) && FirstKnown(g, first) && WellFormed(g) && FirstClosed(g, first)
    requires p < |AugmentedProductions(g)| && d <= |AugmentedProductions(g)[p].rhs|
    requires FramesFor(g, frames, AugmentedProductions(g)[p].lhs)
    requires ForestFor(Augmented(g), left, AugmentedProductions(g)[p].rhs[..d])
    requires RuleFollows(g, first, p, d, HoleFollow(frames), b)
    ensures var f := Append(LeftForest(frames), left);
            Moves(AugmentedProductions(g), table, [0], ForestTokens(f), b, ForestSize(f)) == Some((stack, []))
    ensures Linked(a, stack, LeftSymbols(AugmentedProductions(g), frames) + AugmentedProductions(g)[p].rhs[..d])
    ensures Top(stack) < |a.states| && LrItem(p, d, HoleFollow(frames)) in a.states[Top(stack)]
    decreases frames, 1
  {
    hide Usable, RuleFollows, WellFormed, FirstClosed, FirstKnown, AutomatonFor, Linked, Moves, Path, FramesFor,
      ForestFor;
    hide Augmented, AugmentedProductions;
    var ps := AugmentedProductions(g);
    var l := HoleFollow(frames);
    var start := LrItem(p, 0, l);
    var c := Ahead(ForestTokens(left), b);
    var stack0 := HoleDrives(g, first, a, table, frames, p, d, left, b);
    ItemFacts(g, first, a, table, Top(stack0), start);
    StartFollows(g, first, p, d, l, b);
    var rhs := ps[p].rhs;
    assert rhs[0..d] == rhs[..d];
    var path := ForestDrives(g, first, a, table, stack0, start, left, d, b);
    stack := stack0 + path;
    LinkedPath(a, stack0, LeftSymbols(ps, frames), rhs[..d], path);
    AppendTokens(LeftForest(frames), left);
    RunSequence(ps, table, [0], ForestTokens(LeftForest(frames)), ForestSize(LeftForest(frames)), stack0,
                ForestTokens(left), ForestSize(left), stack, b);
    assert Top(stack) == End(Top(stack0), path);
  }

  // The machine stands where the rule in the hole starts.
  lemma {:induction false} HoleDrives(g: ResidualGrammar, first: seq<set<nat>>, a: Automaton, table: LalrTable,
      frames: Frames, p: nat, d: nat, left: Forest, b: Lookahead) returns (stack: seq<nat>)
    requires Usable(g, first, a, table) && FirstKnown(g, first) && WellFormed(g) && FirstClosed(g, first)
    requires p < |AugmentedProductions(g)| && d <= |AugmentedProductions(g)[p].rhs|
    requires FramesFor(g, frames, AugmentedProductions(g)[p].lhs)
    requires ForestFor(Augmented(g), left, AugmentedProductions(g)[p].rhs[..d])
    requires RuleFollows(g, first, p, d, HoleFollow(frames), b)
    ensures var f := LeftForest(frames);
            Moves(AugmentedProductions(g), table, [0], ForestTokens(f), Ahead(ForestTokens(left), b), ForestSize(f)) ==
              Some((stack, []))
    ensures Linked(a, stack, LeftSymbols(AugmentedProductions(g), frames))
    ensures stack != [] && Top(stack) < |a.states| && LrItem(p, 0, HoleFollow(frames)) in a.states[Top(stack)]
    decreases frames, 0
  {
    hide Usable, RuleFollows, WellFormed, FirstClosed, FirstKnown, AutomatonFor, Linked, Moves, ForestFor;
    var ps := AugmentedProductions(g);
    var c := Ahead(ForestTokens(left), b);
    UsableFacts(g, first, a, table);
    match frames {
      case Outermost =>
        OutermostIsStart(g, first, p);
        stack := [0];
        NoMoves(g, a, table, c);
      case Under(above, q, e, left0, right0) =>
        HoleIsRule(g, first, frames, p);
        OuterFollows(g, first, frames, p, d, left, b);
        stack := FramesDrive(g, first, a, table, above, q, e, left0, c);
        BottomEmpty(a, stack, LeftSymbols(ps, above) + ps[q].rhs[..e]);
        HoleExpands(g, first, a, table, Top(stack), frames, p);
    }
  }

  lemma OutermostIsStart(g: ResidualGrammar, first: seq<set<nat>>, p: nat)
    requires FirstKnown(g, first) && p < |AugmentedProductions(g)| && AugmentedProductions(g)[p].lhs == g.nonterminals
    ensures p == |g.productions|
  {
    RhsKnown(g, first, p, 0);
  }

  lemma HoleIsRule(g: ResidualGrammar, first: seq<set<nat>>, frames: Frames, p: nat)
    requires FirstKnown(g, first) && frames.Under? && p < |AugmentedProductions(g)|
    requires FramesFor(g, frames, AugmentedProductions(g)[p].lhs)
    ensures p < |g.productions| && AugmentedProductions(g)[p] == g.productions[p]
  {
    RhsKnown(g, first, frames.production, 0);
    var rhs := AugmentedProductions(g)[frames.production].rhs;
    assert rhs[frames.dot] in rhs;
  }

  lemma NoMoves(g: ResidualGrammar, a: Automaton, table: LalrTable, c: Lookahead)
    ensures Moves(AugmentedProductions(g), table, [0], [], c, 0) == Some(([0], []))
    ensures Linked(a, [0], [])
  {
  }

  lemma HoleExpands(g: ResidualGrammar, first: seq<set<nat>>, a: Automaton, table: LalrTable, m: nat, frames: Frames,
      p: nat)
    requires Usable(g, first, a, table) && FirstKnown(g, first) && m < |a.states| && frames.Under?
    requires p < |g.productions| && FramesFor(g, frames, g.productions[p].lhs)
    requires LrItem(frames.production, frames.dot, HoleFollow(frames.above)) in a.states[m]
    requires RuleFollows(g, first, frames.production, frames.dot + 1, HoleFollow(frames.above), HoleFollow(frames))
    ensures LrItem(p, 0, HoleFollow(frames)) in a.states[m]
  {
    hide Usable;
    var item := LrItem(frames.production, frames.dot, HoleFollow(frames.above));
    ItemFacts(g, first, a, table, m, item);
    assert Expands(g, first, item, p, HoleFollow(frames));
    ItemExpands(g, first, a, table, m, item, p, HoleFollow(frames));
  }

  lemma StartFollows(g: ResidualGrammar, first: seq<set<nat>>, p: nat, d: nat, l: Lookahead, b: Lookahead)
    requires FirstKnown(g, first) && p < |AugmentedProductions(g)| && d <= |AugmentedProductions(g)[p].rhs|
    requires ItemInRange(g, LrItem(p, 0, l)) && RuleFollows(g, first, p, d, l, b)
    ensures Follows(g, first, LrItem(p, 0, l), d, b)
  {
  }

  lemma {:induction false} LinkedPath(a: Automaton, stack: seq<nat>, alpha: seq<Symbol>, symbols: seq<Symbol>,
      path: seq<nat>)
    requires Linked(a, stack, alpha) && Path(a, Top(stack), symbols, path)
    ensures Linked(a, stack + path, alpha + symbols)
    decreases |symbols|
  {
    if symbols == [] {
      assert stack + path == stack && alpha + symbols == alpha;
    } else {
      var stack1 := stack + [path[0]];
      var alpha1 := alpha + [symbols[0]];
      assert Linked(a, stack1, alpha1);
      LinkedPath(a, stack1, alpha1, symbols[1..], path[1..]);
      assert stack1 + path[1..] == stack + path;
      assert alpha1 + symbols[1..] == alpha + symbols;
    }
  }

  // Edges are functions, so a stack is determined by what it spells.
  lemma {:induction false} LinkedUnique(a: Automaton, s: seq<nat>, t: seq<nat>, alpha: seq<Symbol>)
    requires Linked(a, s, alpha) && Linked(a, t, alpha)
    ensures s == t
    decreases |alpha|
  {
    if alpha != [] {
      var k := |alpha| - 1;
      LinkedPrefix(a, s, alpha, k);
      LinkedPrefix(a, t, alpha, k);
      LinkedUnique(a, s[..k + 1], t[..k + 1], alpha[..k]);
      assert s[k] == s[..k + 1][k] && t[k] == t[..k + 1][k];
      assert s == s[..k + 1] + [s[k + 1]] && t == t[..k + 1] + [t[k + 1]];
    }
  }
}
