/**
 The productive nonterminals by a counting worklist, and the reachable ones by a search from the start.
 */
module GrammarReduction {
  import opened Grammars
  import opened RegularExpressions
  import opened SchemaGrammars
  import opened GrammarMaps
  import opened Flags

  // Every terminal matches some word.
  ghost predicate TerminalsMatch(meaning: Meaning, g: Grammar) {
    forall t <- g.terminals :: exists w: Word :: w in t.Language(meaning)
  }

  // ---------- Counting ----------

  // How often nonterminal `n` stands on the right-hand side.
  function Occurrences(rhs: seq<Symbol>, n: nat): nat {
    if rhs == [] then 0 else Occurrences(rhs[..|rhs| - 1], n) + if rhs[|rhs| - 1] == Nonterminal(n) then 1 else 0
  }

  // How many symbols of the right-hand side are nonterminals outside `done`.
  function Pending(rhs: seq<Symbol>, done: set<nat>): nat {
    if rhs == [] then 0
    else Pending(rhs[..|rhs| - 1], done) + if rhs[|rhs| - 1].Nonterminal? && rhs[|rhs| - 1].id !in done then 1 else 0
  }

  function Copies(s: seq<nat>, x: nat): nat {
    if s == [] then 0 else Copies(s[..|s| - 1], x) + if s[|s| - 1] == x then 1 else 0
  }

  lemma CopiesMore(s: seq<nat>, y: nat, x: nat)
    ensures Copies(s + [y], x) == Copies(s, x) + if y == x then 1 else 0
  {
    assert (s + [y])[..|s|] == s;
  }

  lemma {:induction false} PendingLess(rhs: seq<Symbol>, done: set<nat>, n: nat)
    requires n !in done
    ensures Pending(rhs, done + {n}) + Occurrences(rhs, n) == Pending(rhs, done)
    decreases |rhs|
  {
    if rhs != [] {
      PendingLess(rhs[..|rhs| - 1], done, n);
    }
  }

  lemma {:induction false} PendingZero(rhs: seq<Symbol>, done: set<nat>)
    ensures Pending(rhs, done) == 0 <==> forall s <- rhs :: s.Nonterminal? ==> s.id in done
    decreases |rhs|
  {
    if rhs != [] {
      var front, last := rhs[..|rhs| - 1], rhs[|rhs| - 1];
      PendingZero(front, done);
      assert forall s :: s in rhs <==> s in front || s == last;
    }
  }

  // ---------- Productive nonterminals ----------

  // A set that holds the left-hand side of every production whose nonterminals it holds.
  ghost predicate ClosedUnder(g: Grammar, p: set<nat>) {
    forall i: nat {:trigger g.productions[i]} ::
      i < |g.productions| && (forall s <- g.productions[i].rhs :: s.Nonterminal? ==> s.id in p) ==>
      g.productions[i].lhs in p
  }

  lemma {:induction false} ClosedHolds(meaning: Meaning, g: Grammar, p: set<nat>, t: Tree, s: Symbol)
    requires ClosedUnder(g, p) && TreeFor(CfgFor(meaning, g), t, s) && s.Nonterminal?
    ensures s.id in p
    decreases t, 1
  {
    ForestHolds(meaning, g, p, t.kids, g.productions[t.production].rhs);
    assert g.productions[t.production].lhs in p;
  }

  lemma {:induction false} ForestHolds(meaning: Meaning, g: Grammar, p: set<nat>, f: Forest, alpha: seq<Symbol>)
    requires ClosedUnder(g, p) && ForestFor(CfgFor(meaning, g), f, alpha)
    ensures forall s <- alpha :: s.Nonterminal? ==> s.id in p
    decreases f, 0
  {
    match f
    case Nil =>
    case Cons(t, rest) =>
      ForestHolds(meaning, g, p, rest, alpha[1..]);
      if alpha[0].Nonterminal? {
        ClosedHolds(meaning, g, p, t, alpha[0]);
      }
      assert forall s :: s in alpha <==> s == alpha[0] || s in alpha[1..];
  }

  lemma {:induction false} SomeForest(meaning: Meaning, g: Grammar, alpha: seq<Symbol>) returns (f: Forest)
    requires InRange(g) && TerminalsMatch(meaning, g)
    requires forall s <- alpha ::
               SymbolInRange(s, g.nonterminals, |g.terminals|)
               && (s.Nonterminal? ==> GeneratesSome(CfgFor(meaning, g), s.id))
    ensures ForestFor(CfgFor(meaning, g), f, alpha)
    decreases |alpha|
  {
    if alpha == [] {
      f := Nil;
    } else {
      assert alpha[0] in alpha && forall s <- alpha[1..] :: s in alpha;
      var rest := SomeForest(meaning, g, alpha[1..]);
      match alpha[0] {
        case Nonterminal(a) =>
          var w: Word :| Generates(CfgFor(meaning, g), a, w);
          var t: Tree :| TreeFor(CfgFor(meaning, g), t, Nonterminal(a)) && Yield(t) == w;
          f := Cons(t, rest);
        case Terminal(t) =>
          assert g.terminals[t] in g.terminals;
          var w: Word :| w in g.terminals[t].Language(meaning);
          f := Cons(Leaf(t, w), rest);
      }
    }
  }

  // A production whose nonterminals all derive something derives something.
  lemma ProductionProductive(meaning: Meaning, g: Grammar, i: nat)
    requires InRange(g) && TerminalsMatch(meaning, g) && i < |g.productions|
    requires forall s <- g.productions[i].rhs :: s.Nonterminal? ==> GeneratesSome(CfgFor(meaning, g), s.id)
    ensures GeneratesSome(CfgFor(meaning, g), g.productions[i].lhs)
  {
    ProductionKnown(g, i);
    var f := SomeForest(meaning, g, g.productions[i].rhs);
    assert Derives(CfgFor(meaning, g), g.productions[i].rhs, ForestYield(f));
    DerivesProduction(CfgFor(meaning, g), i, ForestYield(f));
  }

  // The worklist between two steps: `done` has been taken off, `found` is everything ever put on.
  ghost predicate Counted(g: Grammar, remaining: seq<nat>, done: set<nat>) {
    |remaining| == |g.productions|
      && forall i: nat :: i < |g.productions| ==> remaining[i] == Pending(g.productions[i].rhs, done)
  }

  ghost predicate WaitingFor(g: Grammar, waiting: seq<seq<nat>>) {
    && |waiting| == g.nonterminals
    && (forall n: nat, k: nat {:trigger waiting[n][k]} :: n < |waiting| && k < |waiting[n]| ==>
          waiting[n][k] < |g.productions|)
    && (forall n: nat, i: nat {:trigger Copies(waiting[n], i)} :: n < |waiting| && i < |g.productions| ==>
          Copies(waiting[n], i) == Occurrences(g.productions[i].rhs, n))
  }

  ghost predicate Marked(g: Grammar, productive: seq<bool>, found: set<nat>) {
    |productive| == g.nonterminals && forall a: nat :: a in found <==> a < |productive| && productive[a]
  }

  // What has been found derives something, as long as the terminals do.
  ghost predicate FoundSound(meaning: Meaning, g: Grammar, found: set<nat>) {
    TerminalsMatch(meaning, g) ==> forall a <- found :: GeneratesSome(CfgFor(meaning, g), a)
  }

  // Productions with nothing pending have their left-hand side found.
  ghost predicate ZeroFound(g: Grammar, remaining: seq<nat>, found: set<nat>) {
    |remaining| == |g.productions|
      && forall i: nat :: i < |g.productions| && remaining[i] == 0 ==> g.productions[i].lhs in found
  }

  method CountProductions(g: Grammar) returns (remaining: seq<nat>, waiting: seq<seq<nat>>)
    requires InRange(g)
    ensures Counted(g, remaining, {}) && WaitingFor(g, waiting)
  {
    remaining, waiting := [], seq(g.nonterminals, _ => []);
    for i := 0 to |g.productions|
      invariant |remaining| == i && forall j: nat :: j < i ==> remaining[j] == Pending(g.productions[j].rhs, {})
      invariant |waiting| == g.nonterminals
      invariant forall n: nat, k: nat {:trigger waiting[n][k]} :: n < |waiting| && k < |waiting[n]| ==>
                  waiting[n][k] < i
      invariant forall n: nat, j: nat {:trigger Copies(waiting[n], j)} :: n < |waiting| && j < |g.productions| ==>
                  Copies(waiting[n], j) == if j < i then Occurrences(g.productions[j].rhs, n) else 0
    {
      ProductionKnown(g, i);
      var rhs := g.productions[i].rhs;
      var count := 0;
      for k := 0 to |rhs|
        invariant count == Pending(rhs[..k], {}) && |waiting| == g.nonterminals
        invariant forall n: nat, m: nat {:trigger waiting[n][m]} :: n < |waiting| && m < |waiting[n]| ==>
                    waiting[n][m] <= i
        invariant forall n: nat, j: nat {:trigger Copies(waiting[n], j)} :: n < |waiting| && j < |g.productions| ==>
                    Copies(waiting[n], j) ==
                    if j < i then Occurrences(g.productions[j].rhs, n)
                    else if j == i then Occurrences(rhs[..k], n)
                    else 0
      {
        assert rhs[..k + 1][..k] == rhs[..k];
        if rhs[k].Nonterminal? {
          assert rhs[k] in rhs;
          var n := rhs[k].id;
          forall j: nat ensures Copies(waiting[n] + [i], j) == Copies(waiting[n], j) + if i == j then 1 else 0 {
            CopiesMore(waiting[n], i, j);
          }
          count := count + 1;
          waiting := waiting[n := waiting[n] + [i]];
        }
      }
      assert rhs[..|rhs|] == rhs;
      remaining := remaining + [count];
    }
  }

  lemma {:induction false} CopiesPrefix(s: seq<nat>, k: nat, x: nat)
    requires k <= |s|
    ensures Copies(s[..k], x) <= Copies(s, x)
    decreases |s|
  {
    if k < |s| {
      CopiesPrefix(s[..|s| - 1], k, x);
      assert s[..|s| - 1][..k] == s[..k];
    } else {
      assert s[..k] == s;
    }
  }

  // While nonterminal `n` is being processed, after `k` of the productions waiting for it.
  ghost predicate Counting(g: Grammar, remaining: seq<nat>, done: set<nat>, waiting: seq<nat>, k: nat)
    requires k <= |waiting|
  {
    |remaining| == |g.productions| && forall i: nat :: i < |g.productions| ==>
      remaining[i] + Copies(waiting[..k], i) == Pending(g.productions[i].rhs, done)
  }

  // Counting one production down; at zero all its nonterminals have been found.
  lemma CountDown(g: Grammar, remaining: seq<nat>, done: set<nat>, waiting: seq<nat>, k: nat, n: nat)
    requires k < |waiting| && Counting(g, remaining, done, waiting, k) && n !in done && waiting[k] < |g.productions|
    requires forall i: nat :: i < |g.productions| ==> Copies(waiting, i) == Occurrences(g.productions[i].rhs, n)
    ensures var i := waiting[k];
            && remaining[i] > 0 && Counting(g, remaining[i := remaining[i] - 1], done, waiting, k + 1)
            && (remaining[i] == 1 ==> forall s <- g.productions[i].rhs :: s.Nonterminal? ==> s.id in done + {n})
  {
    var i := waiting[k];
    assert waiting[..k + 1] == waiting[..k] + [i];
    forall j: nat ensures Copies(waiting[..k + 1], j) == Copies(waiting[..k], j) + if i == j then 1 else 0 {
      CopiesMore(waiting[..k], i, j);
    }
    CopiesPrefix(waiting, k + 1, i);
    PendingLess(g.productions[i].rhs, done, n);
    PendingZero(g.productions[i].rhs, done + {n});
  }

  lemma Processed(g: Grammar, remaining: seq<nat>, done: set<nat>, waiting: seq<nat>, n: nat)
    requires Counting(g, remaining, done, waiting, |waiting|) && n !in done
    requires forall i: nat :: i < |g.productions| ==> Copies(waiting, i) == Occurrences(g.productions[i].rhs, n)
    ensures Counted(g, remaining, done + {n})
  {
    assert waiting[..|waiting|] == waiting;
    forall i: nat | i < |g.productions| ensures remaining[i] == Pending(g.productions[i].rhs, done + {n}) {
      PendingLess(g.productions[i].rhs, done, n);
    }
  }

  // A nonterminal found through a production whose nonterminals were all found.
  lemma FoundMore(meaning: Meaning, g: Grammar, found: set<nat>, i: nat)
    requires InRange(g) && i < |g.productions| && FoundSound(meaning, g, found)
    requires forall s <- g.productions[i].rhs :: s.Nonterminal? ==> s.id in found
    ensures FoundSound(meaning, g, found + {g.productions[i].lhs})
  {
    hide GeneratesSome;
    if TerminalsMatch(meaning, g) {
      ProductionProductive(meaning, g, i);
    }
  }

  // The queue holds, once each, what was found and not processed.
  ghost predicate Queued(g: Grammar, queue: seq<nat>, done: set<nat>, found: set<nat>) {
    && done <= found && (forall a <- found :: a < g.nonterminals)
    && (forall a <- found :: a in done || a in queue) && (forall a <- queue :: a in found && a !in done)
    && (forall i, j :: 0 <= i < j < |queue| ==> queue[i] != queue[j])
  }

  lemma QueuedMore(g: Grammar, queue: seq<nat>, done: set<nat>, found: set<nat>, a: nat)
    requires Queued(g, queue, done, found) && a !in found && a < g.nonterminals
    ensures Queued(g, queue + [a], done, found + {a})
  {
  }

  lemma QueuedNext(g: Grammar, queue: seq<nat>, done: set<nat>, found: set<nat>)
    requires Queued(g, queue, done, found) && queue != []
    ensures queue[0] in found && queue[0] !in done && queue[0] < g.nonterminals
    ensures Queued(g, queue[1..], done + {queue[0]}, found)
  {
    assert queue == [queue[0]] + queue[1..];
  }

  // The counting worklist finds exactly the productive nonterminals.
  method ProductiveNonterminals(ghost meaning: Meaning, g: Grammar) returns (productive: seq<bool>)
    requires InRange(g)
    ensures |productive| == g.nonterminals
    ensures forall a: nat :: a < g.nonterminals && GeneratesSome(CfgFor(meaning, g), a) ==> productive[a]
    ensures TerminalsMatch(meaning, g) ==> forall a: nat :: a < g.nonterminals && productive[a] ==>
                                             GeneratesSome(CfgFor(meaning, g), a)
  {
    hide GeneratesSome, Counted, Counting, WaitingFor, Queued, FoundSound, TerminalsMatch, InRange;
    var remaining, waiting := CountProductions(g);
    WaitingShape(g, waiting);
    productive := seq(g.nonterminals, _ => false);
    var queue: seq<nat> := [];
    ghost var done: set<nat>, found: set<nat> := {}, {};
    NothingFound(meaning, g);
    CountedSize(g, remaining, done);
    for i := 0 to |g.productions|
      invariant Marked(g, productive, found) && FoundSound(meaning, g, found) && Queued(g, queue, done, found)
      invariant forall j: nat :: j < i && remaining[j] == 0 ==> g.productions[j].lhs in found
    {
      ProductionKnown(g, i);
      if remaining[i] == 0 && !productive[g.productions[i].lhs] {
        var lhs := g.productions[i].lhs;
        CountedZero(g, remaining, done, i);
        FoundMore(meaning, g, found, i);
        QueuedMore(g, queue, done, found, lhs);
        productive := productive[lhs := true];
        queue := queue + [lhs];
        found := found + {lhs};
      }
    }
    while queue != []
      invariant Counted(g, remaining, done) && Marked(g, productive, found) && FoundSound(meaning, g, found)
      invariant Queued(g, queue, done, found)
      invariant ZeroFound(g, remaining, found)
      decreases Outside(g, done)
    {
      var n := queue[0];
      QueuedNext(g, queue, done, found);
      WaitingAt(g, waiting, n);
      CountingStarts(g, remaining, done, waiting[n]);
      ghost var processed := done + {n};
      queue := queue[1..];
      for k := 0 to |waiting[n]|
        invariant Counting(g, remaining, done, waiting[n], k) && Marked(g, productive, found)
        invariant FoundSound(meaning, g, found)
        invariant Queued(g, queue, processed, found) && ZeroFound(g, remaining, found)
      {
        var i := waiting[n][k];
        CountDown(g, remaining, done, waiting[n], k, n);
        ProductionKnown(g, i);
        remaining := remaining[i := remaining[i] - 1];
        if remaining[i] == 0 {
          var lhs := g.productions[i].lhs;
          QueuedFound(g, queue, processed, found);
          FoundMore(meaning, g, found, i);
          if !productive[lhs] {
            QueuedMore(g, queue, processed, found, lhs);
            productive := productive[lhs := true];
            queue := queue + [lhs];
            found := found + {lhs};
          }
        }
      }
      Processed(g, remaining, done, waiting[n], n);
      OutsideLess(g, done, n);
      done := processed;
    }
    EverythingFound(meaning, g, remaining, done, found);
    FoundExact(meaning, g, found);
  }

  lemma NothingFound(meaning: Meaning, g: Grammar)
    ensures FoundSound(meaning, g, {}) && Queued(g, [], {}, {})
  {
  }

  lemma WaitingShape(g: Grammar, waiting: seq<seq<nat>>)
    requires WaitingFor(g, waiting)
    ensures |waiting| == g.nonterminals
  {
  }

  lemma WaitingAt(g: Grammar, waiting: seq<seq<nat>>, n: nat)
    requires WaitingFor(g, waiting) && n < g.nonterminals
    ensures n < |waiting| && forall k: nat :: k < |waiting[n]| ==> waiting[n][k] < |g.productions|
    ensures forall i: nat :: i < |g.productions| ==> Copies(waiting[n], i) == Occurrences(g.productions[i].rhs, n)
  {
  }

  lemma CountedSize(g: Grammar, remaining: seq<nat>, done: set<nat>)
    requires Counted(g, remaining, done)
    ensures |remaining| == |g.productions|
  {
  }

  lemma CountedZero(g: Grammar, remaining: seq<nat>, done: set<nat>, i: nat)
    requires Counted(g, remaining, done) && i < |g.productions| && remaining[i] == 0
    ensures forall s <- g.productions[i].rhs :: s.Nonterminal? ==> s.id in done
  {
    PendingZero(g.productions[i].rhs, done);
  }

  lemma CountingStarts(g: Grammar, remaining: seq<nat>, done: set<nat>, waiting: seq<nat>)
    requires Counted(g, remaining, done)
    ensures Counting(g, remaining, done, waiting, 0)
  {
  }

  lemma QueuedFound(g: Grammar, queue: seq<nat>, done: set<nat>, found: set<nat>)
    requires Queued(g, queue, done, found)
    ensures done <= found
  {
  }

  ghost function Outside(g: Grammar, done: set<nat>): set<nat> {
    set a: nat | a < g.nonterminals && a !in done
  }

  lemma OutsideLess(g: Grammar, done: set<nat>, n: nat)
    requires n < g.nonterminals && n !in done
    ensures Outside(g, done + {n}) < Outside(g, done)
  {
    assert n in Outside(g, done) && n !in Outside(g, done + {n});
  }

  // With an empty queue the found set is closed, so it holds everything productive.
  lemma EverythingFound(meaning: Meaning, g: Grammar, remaining: seq<nat>, done: set<nat>, found: set<nat>)
    requires Counted(g, remaining, done) && Queued(g, [], done, found) && ZeroFound(g, remaining, found)
    ensures forall a: nat :: GeneratesSome(CfgFor(meaning, g), a) ==> a in found
  {
    assert done == found;
    forall i: nat | i < |g.productions| && (forall s <- g.productions[i].rhs :: s.Nonterminal? ==> s.id in found)
      ensures g.productions[i].lhs in found
    {
      PendingZero(g.productions[i].rhs, done);
    }
    forall a: nat | GeneratesSome(CfgFor(meaning, g), a) ensures a in found {
      var w: Word :| Generates(CfgFor(meaning, g), a, w);
      var t: Tree :| TreeFor(CfgFor(meaning, g), t, Nonterminal(a)) && Yield(t) == w;
      ClosedHolds(meaning, g, found, t, Nonterminal(a));
    }
  }

  lemma FoundExact(meaning: Meaning, g: Grammar, found: set<nat>)
    requires FoundSound(meaning, g, found)
    ensures TerminalsMatch(meaning, g) ==> forall a <- found :: GeneratesSome(CfgFor(meaning, g), a)
  {
    hide GeneratesSome;
  }

  // ---------- Reachable nonterminals ----------

  ghost predicate MarkedAll(reachable: seq<bool>, alpha: seq<Symbol>) {
    forall s <- alpha :: s.Nonterminal? ==> s.id < |reachable| && reachable[s.id]
  }

  ghost predicate Waiting(g: Grammar, reachable: seq<bool>, stack: seq<nat>) {
    && |reachable| == g.nonterminals && g.start < |reachable| && reachable[g.start]
    && forall a <- stack :: a < |reachable| && reachable[a]
  }

  // Only what the start reaches is marked.
  ghost predicate OnlyReached(g: Grammar, reachable: seq<bool>) {
    forall a: nat :: a < |reachable| && reachable[a] ==> Reaches(g, g.start, a)
  }

  predicate Settled(reachable: seq<bool>, stack: seq<nat>, open: Option<nat>, a: nat) {
    a < |reachable| && reachable[a] && a !in stack && open != Some(a)
  }

  // The productions of every marked nonterminal outside the stack and other than `open` are marked.
  ghost predicate Expanded(g: Grammar, reachable: seq<bool>, stack: seq<nat>, open: Option<nat>) {
    forall p: nat {:trigger g.productions[p]} ::
      p < |g.productions| && Settled(reachable, stack, open, g.productions[p].lhs) ==>
      MarkedAll(reachable, g.productions[p].rhs)
  }

  lemma MarkOne(g: Grammar, reachable: seq<bool>, stack: seq<nat>, n: nat, p: nat, b: nat)
    requires Waiting(g, reachable, stack) && OnlyReached(g, reachable) && Expanded(g, reachable, stack, Some(n))
    requires n < |reachable| && reachable[n] && b < |reachable| && !reachable[b]
    requires p < |g.productions| && g.productions[p].lhs == n && Nonterminal(b) in g.productions[p].rhs
    ensures var more := reachable[b := true];
            && Waiting(g, more, stack + [b]) && OnlyReached(g, more) && Expanded(g, more, stack + [b], Some(n))
            && Unset(more) < Unset(reachable)
            && forall alpha: seq<Symbol> :: MarkedAll(reachable, alpha) ==> MarkedAll(more, alpha)
  {
    var more := reachable[b := true];
    assert forall alpha: seq<Symbol> :: MarkedAll(reachable, alpha) ==> MarkedAll(more, alpha);
    assert DependsOn(g, n, b);
    ReachesStep(g, n, b);
    ReachesTransitive(g, g.start, n, b);
    assert b in stack + [b] && forall a :: a in stack ==> a in stack + [b];
    UnsetLess(reachable, b);
  }

  lemma Popped(g: Grammar, reachable: seq<bool>, stack: seq<nat>)
    requires Waiting(g, reachable, stack) && Expanded(g, reachable, stack, None) && stack != []
    ensures var n := stack[|stack| - 1];
            n < |reachable| && reachable[n] && Waiting(g, reachable, stack[..|stack| - 1])
              && Expanded(g, reachable, stack[..|stack| - 1], Some(n))
  {
    var front, n := stack[..|stack| - 1], stack[|stack| - 1];
    forall a: nat | a in front ensures a < |reachable| && reachable[a] {
      InPopped(stack, a);
    }
    forall p: nat | p < |g.productions| && Settled(reachable, front, Some(n), g.productions[p].lhs)
      ensures MarkedAll(reachable, g.productions[p].rhs)
    {
      InPopped(stack, g.productions[p].lhs);
    }
    InPopped(stack, n);
  }

  lemma Closed(g: Grammar, reachable: seq<bool>, stack: seq<nat>, n: nat, productions: seq<nat>)
    requires Expanded(g, reachable, stack, Some(n))
    requires forall p: nat :: p < |g.productions| && g.productions[p].lhs == n ==> p in productions
    requires forall p: nat :: p in productions ==> p < |g.productions| && MarkedAll(reachable, g.productions[p].rhs)
    ensures Expanded(g, reachable, stack, None)
  {
  }

  // A set of marks closed under the productions holds everything the start reaches.
  lemma {:induction false} PathMarked(g: Grammar, reachable: seq<bool>, path: seq<nat>)
    requires Waiting(g, reachable, []) && Expanded(g, reachable, [], None) && PathFor(g, path) && path[0] == g.start
    ensures path[|path| - 1] < |reachable| && reachable[path[|path| - 1]]
    decreases |path|
  {
    if |path| > 1 {
      var front := path[..|path| - 1];
      forall i | 0 < i < |front| ensures DependsOn(g, front[i - 1], front[i]) {
        assert DependsOn(g, path[i - 1], path[i]);
      }
      PathMarked(g, reachable, front);
      assert DependsOn(g, path[|path| - 2], path[|path| - 1]);
      var p: nat :| p < |g.productions| && g.productions[p].lhs == path[|path| - 2]
        && Nonterminal(path[|path| - 1]) in g.productions[p].rhs;
      assert MarkedAll(reachable, g.productions[p].rhs);
    }
  }

  lemma EverythingReached(g: Grammar, reachable: seq<bool>)
    requires Waiting(g, reachable, []) && Expanded(g, reachable, [], None) && OnlyReached(g, reachable)
    ensures forall a: nat :: a < |reachable| ==> (reachable[a] <==> Reaches(g, g.start, a))
  {
    forall a: nat | a < |reachable| && Reaches(g, g.start, a) ensures reachable[a] {
      var path :| PathFor(g, path) && path[0] == g.start && path[|path| - 1] == a;
      PathMarked(g, reachable, path);
    }
  }

  // The search from the start marks exactly what the start reaches.
  method ReachableNonterminals(g: Grammar) returns (reachable: seq<bool>)
    requires InRange(g)
    ensures |reachable| == g.nonterminals
    ensures forall a: nat :: a < g.nonterminals ==> (reachable[a] <==> Reaches(g, g.start, a))
  {
    hide Reaches, OnlyReached, Expanded, InRange;
    ProductionsKnown(g);
    var byLhs := GroupByLhs(g.nonterminals, g.productions);
    StartReached(g);
    reachable := seq(g.nonterminals, i => i == g.start);
    var stack := [g.start];
    while stack != []
      invariant Waiting(g, reachable, stack) && OnlyReached(g, reachable) && Expanded(g, reachable, stack, None)
      decreases Unset(reachable), |stack|
    {
      var n := stack[|stack| - 1];
      Popped(g, reachable, stack);
      ghost var before, height := reachable, |stack|;
      stack := stack[..|stack| - 1];
      for k := 0 to |byLhs[n]|
        invariant Waiting(g, reachable, stack) && OnlyReached(g, reachable) && Expanded(g, reachable, stack, Some(n))
        invariant reachable[n] && forall j: nat :: j < k ==> MarkedAll(reachable, g.productions[byLhs[n][j]].rhs)
        invariant Unset(reachable) < Unset(before) || (Unset(reachable) == Unset(before) && |stack| < height)
      {
        var p := byLhs[n][k];
        var rhs := g.productions[p].rhs;
        ProductionKnown(g, p);
        for i := 0 to |rhs|
          invariant Waiting(g, reachable, stack) && OnlyReached(g, reachable) && Expanded(g, reachable, stack, Some(n))
          invariant reachable[n] && MarkedAll(reachable, rhs[..i])
          invariant forall j: nat :: j < k ==> MarkedAll(reachable, g.productions[byLhs[n][j]].rhs)
          invariant Unset(reachable) < Unset(before) || (Unset(reachable) == Unset(before) && |stack| < height)
        {
          assert rhs[i] in rhs && rhs[..i + 1] == rhs[..i] + [rhs[i]];
          if rhs[i].Nonterminal? && !reachable[rhs[i].id] {
            var b := rhs[i].id;
            MarkOne(g, reachable, stack, n, p, b);
            reachable := reachable[b := true];
            stack := stack + [b];
          }
        }
        assert rhs[..|rhs|] == rhs;
      }
      Closed(g, reachable, stack, n, byLhs[n]);
    }
    EverythingReached(g, reachable);
  }

  lemma ProductionsKnown(g: Grammar)
    requires InRange(g)
    ensures forall p: nat :: p < |g.productions| ==> g.productions[p].lhs < g.nonterminals
  {
    forall p: nat | p < |g.productions| ensures g.productions[p].lhs < g.nonterminals {
      ProductionKnown(g, p);
    }
  }

  lemma StartReached(g: Grammar)
    requires InRange(g)
    ensures var reachable := seq(g.nonterminals, i => i == g.start);
            Waiting(g, reachable, [g.start]) && OnlyReached(g, reachable) && Expanded(g, reachable, [g.start], None)
  {
    ReachesItself(g, g.start);
  }
}
