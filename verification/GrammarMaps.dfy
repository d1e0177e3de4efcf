/**
 When one grammar is the image of another: retained nonterminals are renumbered, every other symbol of a kept
 production becomes a terminal with the same language, and no production that can be used is dropped.  Then
 every retained nonterminal derives the same words in both.
 */
module GrammarMaps {
  import opened Grammars

  type Renumbering = seq<Option<nat>>

  predicate Retains(remap: Renumbering, a: nat) {
    a < |remap| && remap[a].Some?
  }

  ghost predicate Injective(remap: Renumbering) {
    forall a: nat, b: nat :: Retains(remap, a) && Retains(remap, b) && remap[a].value == remap[b].value ==> a == b
  }

  // The image of a symbol.
  ghost predicate SymbolMaps(g: Cfg, h: Cfg, remap: Renumbering, s: Symbol, s': Symbol) {
    if s.Nonterminal? && Retains(remap, s.id) then s' == Nonterminal(remap[s.id].value)
    else s'.Terminal? && s'.id < |h.languages| && forall w: Word :: w in h.languages[s'.id] <==> Derives(g, [s], w)
  }

  // Production `i` of the image comes from production `origin` of the original.
  ghost predicate ProductionMaps(g: Cfg, h: Cfg, remap: Renumbering, origin: nat, i: nat) {
    && origin < |g.productions| && i < |h.productions|
    && Retains(remap, g.productions[origin].lhs) && h.productions[i].lhs == remap[g.productions[origin].lhs].value
    && SymbolsMap(g, h, remap, g.productions[origin].rhs, h.productions[i].rhs)
  }

  ghost predicate SymbolsMap(g: Cfg, h: Cfg, remap: Renumbering, alpha: seq<Symbol>, alpha': seq<Symbol>) {
    |alpha| == |alpha'| && forall k :: 0 <= k < |alpha| ==> SymbolMaps(g, h, remap, alpha[k], alpha'[k])
  }

  ghost predicate HasImage(g: Cfg, h: Cfg, remap: Renumbering, p: nat) {
    exists i: nat :: ProductionMaps(g, h, remap, p, i)
  }

  ghost predicate HasOrigin(g: Cfg, h: Cfg, remap: Renumbering, i: nat) {
    exists p: nat :: ProductionMaps(g, h, remap, p, i)
  }

  ghost predicate DerivesSomething(g: Cfg, alpha: seq<Symbol>) {
    exists w: Word :: Derives(g, alpha, w)
  }

  ghost predicate ImageOf(g: Cfg, h: Cfg, remap: Renumbering) {
    && Injective(remap)
    && (forall i: nat :: i < |h.productions| ==> HasOrigin(g, h, remap, i))
    && (forall p: nat ::
          p < |g.productions| && Retains(remap, g.productions[p].lhs) && DerivesSomething(g, g.productions[p].rhs) ==>
          HasImage(g, h, remap, p))
  }

  // ---------- Into the image ----------

  lemma {:induction false} TreeInto(g: Cfg, h: Cfg, remap: Renumbering, t: Tree, a: nat) returns (t': Tree)
    requires ImageOf(g, h, remap) && Retains(remap, a) && TreeFor(g, t, Nonterminal(a))
    ensures TreeFor(h, t', Nonterminal(remap[a].value)) && Yield(t') == Yield(t)
    decreases t
  {
    var p, kids := t.production, t.kids;
    assert DerivesSomething(g, g.productions[p].rhs) by {
      assert Derives(g, g.productions[p].rhs, ForestYield(kids));
    }
    assert HasImage(g, h, remap, p);
    var i: nat :| ProductionMaps(g, h, remap, p, i);
    var kids' := ForestInto(g, h, remap, kids, g.productions[p].rhs, h.productions[i].rhs);
    t' := Node(i, kids');
  }

  lemma {:induction false} ForestInto(g: Cfg, h: Cfg, remap: Renumbering, f: Forest, alpha: seq<Symbol>,
      alpha': seq<Symbol>) returns (f': Forest)
    requires ImageOf(g, h, remap) && SymbolsMap(g, h, remap, alpha, alpha') && ForestFor(g, f, alpha)
    ensures ForestFor(h, f', alpha') && ForestYield(f') == ForestYield(f)
    decreases f
  {
    hide ImageOf;
    match f
    case Nil => f' := Nil;
    case Cons(t, rest) =>
      assert SymbolMaps(g, h, remap, alpha[0], alpha'[0]);
      assert SymbolsMap(g, h, remap, alpha[1..], alpha'[1..]);
      var rest' := ForestInto(g, h, remap, rest, alpha[1..], alpha'[1..]);
      var t': Tree;
      if alpha[0].Nonterminal? && Retains(remap, alpha[0].id) {
        t' := TreeInto(g, h, remap, t, alpha[0].id);
      } else {
        SingleTree(g, t, alpha[0]);
        t' := Leaf(alpha'[0].id, Yield(t));
      }
      f' := Cons(t', rest');
  }

  // ---------- And back ----------

  lemma {:induction false} TreeBack(g: Cfg, h: Cfg, remap: Renumbering, t': Tree, a: nat) returns (t: Tree)
    requires ImageOf(g, h, remap) && Retains(remap, a) && TreeFor(h, t', Nonterminal(remap[a].value))
    ensures TreeFor(g, t, Nonterminal(a)) && Yield(t) == Yield(t')
    decreases t'
  {
    var i, kids' := t'.production, t'.kids;
    assert HasOrigin(g, h, remap, i);
    var p: nat :| ProductionMaps(g, h, remap, p, i);
    var kids := ForestBack(g, h, remap, kids', g.productions[p].rhs, h.productions[i].rhs);
    t := Node(p, kids);
  }

  lemma {:induction false} ForestBack(g: Cfg, h: Cfg, remap: Renumbering, f': Forest, alpha: seq<Symbol>,
      alpha': seq<Symbol>) returns (f: Forest)
    requires ImageOf(g, h, remap) && SymbolsMap(g, h, remap, alpha, alpha') && ForestFor(h, f', alpha')
    ensures ForestFor(g, f, alpha) && ForestYield(f) == ForestYield(f')
    decreases f'
  {
    hide ImageOf;
    match f'
    case Nil => f := Nil;
    case Cons(t', rest') =>
      assert SymbolMaps(g, h, remap, alpha[0], alpha'[0]);
      assert SymbolsMap(g, h, remap, alpha[1..], alpha'[1..]);
      var rest := ForestBack(g, h, remap, rest', alpha[1..], alpha'[1..]);
      var t: Tree;
      if alpha[0].Nonterminal? && Retains(remap, alpha[0].id) {
        t := TreeBack(g, h, remap, t', alpha[0].id);
      } else {
        assert Derives(g, [alpha[0]], t'.word);
        var one: Forest :| ForestFor(g, one, [alpha[0]]) && ForestYield(one) == t'.word;
        SingleForest(g, one, alpha[0]);
        t := one.head;
      }
      f := Cons(t, rest);
  }

  // Every retained nonterminal derives the same words in both grammars.
  lemma ImagePreserves(g: Cfg, h: Cfg, remap: Renumbering, a: nat, w: Word)
    requires ImageOf(g, h, remap) && Retains(remap, a)
    ensures Generates(g, a, w) <==> Generates(h, remap[a].value, w)
  {
    hide ImageOf;
    if Generates(g, a, w) {
      var t: Tree :| TreeFor(g, t, Nonterminal(a)) && Yield(t) == w;
      var t' := TreeInto(g, h, remap, t, a);
    }
    if Generates(h, remap[a].value, w) {
      var t': Tree :| TreeFor(h, t', Nonterminal(remap[a].value)) && Yield(t') == w;
      var t := TreeBack(g, h, remap, t', a);
    }
  }

  // ---------- Renumbering in order ----------

  function Renumber(retained: seq<bool>): Renumbering {
    if retained == [] then []
    else
      var front := Renumber(retained[..|retained| - 1]);
      front + [if retained[|retained| - 1] then Some(Count(retained[..|retained| - 1])) else None]
  }

  function Count(retained: seq<bool>): nat {
    if retained == [] then 0 else Count(retained[..|retained| - 1]) + if retained[|retained| - 1] then 1 else 0
  }

  lemma {:induction false} CountMore(retained: seq<bool>, k: nat)
    requires k <= |retained|
    ensures Count(retained[..k]) <= Count(retained)
    ensures k < |retained| && retained[k] ==> Count(retained[..k]) < Count(retained)
    decreases |retained|
  {
    if k < |retained| {
      var front := retained[..|retained| - 1];
      assert k < |front| ==> front[k] == retained[k];
      assert front[..k] == retained[..k];
      if k < |front| {
        CountMore(front, k);
      } else {
        assert front[..k] == front;
      }
    } else {
      assert retained[..k] == retained;
    }
  }

  lemma {:induction false} RenumberAt(retained: seq<bool>, a: nat)
    requires a < |retained|
    ensures |Renumber(retained)| == |retained|
    ensures Renumber(retained)[a] == if retained[a] then Some(Count(retained[..a])) else None
    decreases |retained|
  {
    var front := retained[..|retained| - 1];
    if front != [] {
      RenumberAt(front, if a < |front| then a else 0);
    }
    if a < |front| {
      assert front[..a] == retained[..a];
    }
  }

  lemma {:induction false} RenumberSize(retained: seq<bool>)
    ensures |Renumber(retained)| == |retained|
    decreases |retained|
  {
    if retained != [] {
      RenumberSize(retained[..|retained| - 1]);
    }
  }

  // The retained ids are renumbered one-to-one onto the first Count(retained) numbers.
  lemma RenumberExact(retained: seq<bool>)
    ensures |Renumber(retained)| == |retained| && Injective(Renumber(retained))
    ensures forall a: nat :: Retains(Renumber(retained), a) <==> a < |retained| && retained[a]
    ensures forall a: nat :: Retains(Renumber(retained), a) ==> Renumber(retained)[a].value < Count(retained)
  {
    RenumberSize(retained);
    forall a: nat | a < |retained|
      ensures Renumber(retained)[a] == if retained[a] then Some(Count(retained[..a])) else None
      ensures retained[a] ==> Count(retained[..a]) < Count(retained)
    {
      RenumberAt(retained, a);
      CountMore(retained, a);
    }
    forall a: nat, b: nat | a < b < |retained| && retained[a] ensures Count(retained[..a]) < Count(retained[..b]) {
      assert retained[..b][..a] == retained[..a] && retained[..b][a] == retained[a];
      CountMore(retained[..b], a);
    }
  }

  // Every new id is used.
  lemma {:induction false} RenumberOnto(retained: seq<bool>, b: nat) returns (a: nat)
    requires b < Count(retained)
    ensures Retains(Renumber(retained), a) && Renumber(retained)[a].value == b
    decreases |retained|
  {
    var front := retained[..|retained| - 1];
    RenumberSize(front);
    RenumberSize(retained);
    if b < Count(front) {
      a := RenumberOnto(front, b);
      assert Renumber(retained)[a] == Renumber(front)[a];
    } else {
      a := |front|;
    }
  }

  // ---------- Productions by left-hand side ----------

  ghost predicate Grouped(count: nat, productions: seq<Production>, byLhs: seq<seq<nat>>) {
    && |byLhs| == count
    && (forall a: nat, k: nat {:trigger byLhs[a][k]} :: a < |byLhs| && k < |byLhs[a]| ==>
          byLhs[a][k] < |productions| && productions[byLhs[a][k]].lhs == a)
    && (forall p: nat :: p < |productions| ==> productions[p].lhs < |byLhs| && p in byLhs[productions[p].lhs])
  }

  method GroupByLhs(count: nat, productions: seq<Production>) returns (byLhs: seq<seq<nat>>)
    requires forall p: nat :: p < |productions| ==> productions[p].lhs < count
    ensures Grouped(count, productions, byLhs)
  {
    byLhs := seq(count, _ => []);
    for p := 0 to |productions|
      invariant Grouped(count, productions[..p], byLhs)
    {
      var a := productions[p].lhs;
      ghost var before := byLhs;
      byLhs := byLhs[a := byLhs[a] + [p]];
      assert p in byLhs[a];
      forall q: nat | q < p ensures q in byLhs[productions[q].lhs] {
        assert q in before[productions[..p][q].lhs];
      }
    }
    assert productions[..|productions|] == productions;
  }
}
