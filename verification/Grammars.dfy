/**
 Bytes, symbols, productions, and the one notion of derivation that every stage and every backend
 is measured against.  A terminal is a language of byte words, so a derivation tree of the scannerless
 grammar yields bytes directly.
 */
module Grammars {

  datatype Option<+T> = None | Some(value: T)

  type Byte = b: int | 0 <= b < 256
  type Word = seq<Byte>

  datatype Symbol = Nonterminal(id: nat) | Terminal(id: nat)

  datatype Production = Production(lhs: nat, rhs: seq<Symbol>)

  // A context-free grammar over terminal languages: `count` nonterminals, productions in id order.
  datatype Cfg = Cfg(start: nat, count: nat, productions: seq<Production>, languages: seq<iset<Word>>)

  predicate SymbolInRange(s: Symbol, nonterminals: nat, terminals: nat) {
    match s
    case Nonterminal(id) => id < nonterminals
    case Terminal(id) => id < terminals
  }

  predicate ProductionInRange(p: Production, nonterminals: nat, terminals: nat) {
    p.lhs < nonterminals && forall s <- p.rhs :: SymbolInRange(s, nonterminals, terminals)
  }

  // ---------- Derivation trees ----------

  datatype Tree = Leaf(terminal: nat, word: Word) | Node(production: nat, kids: Forest)

  datatype Forest = Nil | Cons(head: Tree, tail: Forest)

  ghost predicate TreeFor(g: Cfg, t: Tree, s: Symbol) {
    match t
    case Leaf(id, w) => s == Terminal(id) && id < |g.languages| && w in g.languages[id]
    case Node(p, kids) =>
      p < |g.productions| && s == Nonterminal(g.productions[p].lhs) && ForestFor(g, kids, g.productions[p].rhs)
  }

  ghost predicate ForestFor(g: Cfg, f: Forest, alpha: seq<Symbol>) {
    match f
    case Nil => alpha == []
    case Cons(t, rest) => alpha != [] && TreeFor(g, t, alpha[0]) && ForestFor(g, rest, alpha[1..])
  }

  function Yield(t: Tree): Word {
    match t
    case Leaf(_, w) => w
    case Node(_, kids) => ForestYield(kids)
  }

  function ForestYield(f: Forest): Word {
    match f
    case Nil => []
    case Cons(t, rest) => Yield(t) + ForestYield(rest)
  }

  // `alpha` derives the byte word `w`.
  ghost predicate Derives(g: Cfg, alpha: seq<Symbol>, w: Word) {
    exists f: Forest :: ForestFor(g, f, alpha) && ForestYield(f) == w
  }

  ghost predicate Generates(g: Cfg, nonterminal: nat, w: Word) {
    exists t: Tree :: TreeFor(g, t, Nonterminal(nonterminal)) && Yield(t) == w
  }

  ghost predicate GeneratesSome(g: Cfg, a: nat) {
    exists w: Word :: Generates(g, a, w)
  }

  // The language of the grammar.
  ghost predicate Accepts(g: Cfg, w: Word) {
    Generates(g, g.start, w)
  }

  function Append(f: Forest, h: Forest): Forest {
    match f
    case Nil => h
    case Cons(t, rest) => Cons(t, Append(rest, h))
  }

  lemma {:induction false} AppendDerives(g: Cfg, f: Forest, alpha: seq<Symbol>, h: Forest, beta: seq<Symbol>)
    requires ForestFor(g, f, alpha) && ForestFor(g, h, beta)
    ensures ForestFor(g, Append(f, h), alpha + beta)
    ensures ForestYield(Append(f, h)) == ForestYield(f) + ForestYield(h)
  {
    match f
    case Nil => assert alpha + beta == beta;
    case Cons(t, rest) =>
      AppendDerives(g, rest, alpha[1..], h, beta);
      assert (alpha + beta)[1..] == alpha[1..] + beta;
  }

  lemma DerivesEmpty(g: Cfg)
    ensures Derives(g, [], [])
  {
    assert ForestFor(g, Nil, []) && ForestYield(Nil) == [];
  }

  lemma DerivesConcat(g: Cfg, alpha: seq<Symbol>, u: Word, beta: seq<Symbol>, v: Word)
    requires Derives(g, alpha, u) && Derives(g, beta, v)
    ensures Derives(g, alpha + beta, u + v)
  {
    var f: Forest :| ForestFor(g, f, alpha) && ForestYield(f) == u;
    var h: Forest :| ForestFor(g, h, beta) && ForestYield(h) == v;
    AppendDerives(g, f, alpha, h, beta);
  }

  // A forest for `alpha` splits at any position of `alpha`.
  lemma {:induction false} SplitForest(g: Cfg, f: Forest, alpha: seq<Symbol>, k: nat) returns (l: Forest, r: Forest)
    requires ForestFor(g, f, alpha) && k <= |alpha|
    ensures ForestFor(g, l, alpha[..k]) && ForestFor(g, r, alpha[k..])
    ensures f == Append(l, r) && ForestYield(f) == ForestYield(l) + ForestYield(r)
  {
    if k == 0 {
      l, r := Nil, f;
      assert alpha[..0] == [] && alpha[0..] == alpha;
    } else {
      var l', r' := SplitForest(g, f.tail, alpha[1..], k - 1);
      l, r := Cons(f.head, l'), r';
      assert alpha[..k][1..] == alpha[1..][..k - 1];
      assert alpha[1..][k - 1..] == alpha[k..];
    }
  }

  lemma SingleTree(g: Cfg, t: Tree, s: Symbol)
    requires TreeFor(g, t, s)
    ensures ForestFor(g, Cons(t, Nil), [s]) && ForestYield(Cons(t, Nil)) == Yield(t)
    ensures Derives(g, [s], Yield(t))
  {
  }

  lemma SingleForest(g: Cfg, f: Forest, s: Symbol)
    requires ForestFor(g, f, [s])
    ensures f.Cons? && f.tail == Nil && TreeFor(g, f.head, s) && ForestYield(f) == Yield(f.head)
  {
    assert [s][1..] == [];
  }

  lemma DerivesNonterminal(g: Cfg, n: nat, w: Word)
    ensures Derives(g, [Nonterminal(n)], w) <==> Generates(g, n, w)
  {
    if Derives(g, [Nonterminal(n)], w) {
      var f: Forest :| ForestFor(g, f, [Nonterminal(n)]) && ForestYield(f) == w;
      SingleForest(g, f, Nonterminal(n));
    }
    if Generates(g, n, w) {
      var t: Tree :| TreeFor(g, t, Nonterminal(n)) && Yield(t) == w;
      SingleTree(g, t, Nonterminal(n));
    }
  }

  lemma DerivesTerminal(g: Cfg, t: nat, w: Word)
    requires t < |g.languages|
    ensures Derives(g, [Terminal(t)], w) <==> w in g.languages[t]
  {
    if Derives(g, [Terminal(t)], w) {
      var f: Forest :| ForestFor(g, f, [Terminal(t)]) && ForestYield(f) == w;
      SingleForest(g, f, Terminal(t));
    }
    if w in g.languages[t] {
      var leaf := Leaf(t, w);
      SingleTree(g, leaf, Terminal(t));
      assert Yield(leaf) == w;
    }
  }

  // A production turns a derivation of its right-hand side into one of its left-hand side.
  lemma DerivesProduction(g: Cfg, p: nat, w: Word)
    requires p < |g.productions| && Derives(g, g.productions[p].rhs, w)
    ensures Generates(g, g.productions[p].lhs, w)
  {
    var f: Forest :| ForestFor(g, f, g.productions[p].rhs) && ForestYield(f) == w;
    assert TreeFor(g, Node(p, f), Nonterminal(g.productions[p].lhs)) && Yield(Node(p, f)) == w;
  }

  // How many symbols the right-hand sides have.
  function RhsTotal(productions: seq<Production>): nat {
    if productions == [] then 0
    else RhsTotal(productions[..|productions| - 1]) + |productions[|productions| - 1].rhs|
  }

  lemma RhsTotalMore(productions: seq<Production>, p: Production)
    ensures RhsTotal(productions + [p]) == RhsTotal(productions) + |p.rhs|
  {
    assert (productions + [p])[..|productions|] == productions;
  }
}
