/**
 What a chart means, independently of how it was filled.  An item [A -> alpha . beta, i] of column j is
 valid when A is predicted at i (a parse spine from the start reaches it) and alpha derives the bytes
 between i and j.  A closed and sound chart holds exactly the valid items, except for completed items
 that a Leo entry stands for; those are never incomplete and never the accepting item.
 */
module EarleyChart {
  import opened Grammars
  import opened Terminals
  import opened Runtime
  import opened ResidualGrammars
  import opened Earley

  // ---------- The compiled rule table ----------

  ghost predicate RuleExact(compiled: CompiledEarley, d: nat)
    requires d < |compiled.dotted|
  {
    var r := compiled.dotted[d];
    && r.production < |compiled.productions| == |compiled.offsets|
    && r.lhs == compiled.productions[r.production].lhs
    && r.dot <= |compiled.productions[r.production].rhs|
    && d == compiled.offsets[r.production] + r.dot
    && r.next == (if r.dot < |compiled.productions[r.production].rhs|
                  then Some(compiled.productions[r.production].rhs[r.dot]) else None)
    && r.advanced == (if r.dot < |compiled.productions[r.production].rhs| then Some(d + 1) else None)
  }

  ghost predicate OffsetExact(compiled: CompiledEarley, p: nat)
    requires p < |compiled.productions| == |compiled.offsets|
  {
    var o := compiled.offsets[p];
    && o + |compiled.productions[p].rhs| < |compiled.dotted|
    && forall d :: o <= d <= o + |compiled.productions[p].rhs| ==>
         compiled.dotted[d].production == p && compiled.dotted[d].dot == d - o
  }

  // The rule table of `grammar`: one dotted rule per production and dot, in order, starts by left-hand side.
  ghost predicate WellBuilt(compiled: CompiledEarley) {
    var g := compiled.grammar;
    && WellFormed(g)
    && compiled.productions == AugmentedProductions(g)
    && compiled.augmentedProduction == |g.productions|
    && |compiled.offsets| == |compiled.productions|
    && |compiled.startsByLhs| == g.nonterminals + 1
    && |compiled.dotted| <= TWO_TO_THE_32
    && (forall d: nat :: d < |compiled.dotted| ==> RuleExact(compiled, d))
    && (forall p: nat :: p < |compiled.productions| ==> OffsetExact(compiled, p))
    && (forall a: nat, d: nat :: a < |compiled.startsByLhs| ==>
          (d in compiled.startsByLhs[a] <==>
           d < |compiled.dotted| && compiled.dotted[d].dot == 0 && compiled.dotted[d].lhs == a))
    && compiled.augmentedComplete == compiled.offsets[compiled.augmentedProduction] + 1
  }

  lemma StartRule(compiled: CompiledEarley, a: nat, d: nat)
    requires WellBuilt(compiled) && a < |compiled.startsByLhs| && d in compiled.startsByLhs[a]
    ensures d < |compiled.dotted| && compiled.dotted[d].dot == 0 && compiled.dotted[d].lhs == a
  {
    hide WellFormed, AugmentedProductions, RuleExact, OffsetExact;
    assert forall e: nat :: e in compiled.startsByLhs[a] <==>
             e < |compiled.dotted| && compiled.dotted[e].dot == 0 && compiled.dotted[e].lhs == a;
  }

  ghost function CfgOf(compiled: CompiledEarley): (g: Cfg)
    ensures WellBuilt(compiled) ==> g.productions == compiled.productions
    ensures g.start == compiled.grammar.nonterminals
  {
    Augmented(compiled.grammar)
  }

  ghost predicate Known(compiled: CompiledEarley, item: Item) {
    item.dotted < |compiled.dotted|
  }

  function Rule(compiled: CompiledEarley, item: Item): DottedRule
    requires item.dotted < |compiled.dotted|
  {
    compiled.dotted[item.dotted]
  }

  ghost function Rhs(compiled: CompiledEarley, item: Item): (rhs: seq<Symbol>)
    requires WellBuilt(compiled) && Known(compiled, item)
    ensures Rule(compiled, item).dot <= |rhs|
  {
    assert RuleExact(compiled, item.dotted);
    compiled.productions[Rule(compiled, item).production].rhs
  }

  function Advanced(item: Item): Item {
    Item(item.dotted + 1, item.origin)
  }

  ghost function StartItem(compiled: CompiledEarley, p: nat, origin: nat): Item
    requires WellBuilt(compiled) && p < |compiled.productions|
  {
    Item(compiled.offsets[p], origin)
  }

  lemma StartItemRule(compiled: CompiledEarley, p: nat, origin: nat)
    requires WellBuilt(compiled) && p < |compiled.productions|
    ensures var s := StartItem(compiled, p, origin);
            Known(compiled, s) && Rule(compiled, s).production == p && Rule(compiled, s).dot == 0
            && Rhs(compiled, s) == compiled.productions[p].rhs
            && Rule(compiled, s).lhs == compiled.productions[p].lhs
            && Rule(compiled, s).lhs < |compiled.startsByLhs|
            && s.dotted in compiled.startsByLhs[Rule(compiled, s).lhs]
  {
    assert OffsetExact(compiled, p);
    var d := compiled.offsets[p];
    assert RuleExact(compiled, d);
    LhsKnown(compiled, p);
  }

  lemma LhsKnown(compiled: CompiledEarley, p: nat)
    requires WellBuilt(compiled) && p < |compiled.productions|
    ensures if p == compiled.augmentedProduction
            then compiled.productions[p] ==
              Production(compiled.grammar.nonterminals, [Nonterminal(compiled.grammar.start)])
            else compiled.productions[p].lhs < compiled.grammar.nonterminals
    ensures forall s <- compiled.productions[p].rhs ::
              SymbolInRange(s, compiled.grammar.nonterminals, |compiled.grammar.terminals|)
  {
    var g := compiled.grammar;
    if p < |g.productions| {
      assert compiled.productions[p] == g.productions[p];
      assert g.productions[p] in g.productions;
    }
  }

  // The dotted rule `d` places into production `p`.
  lemma DottedAt(compiled: CompiledEarley, p: nat, d: nat, origin: nat)
    requires WellBuilt(compiled) && p < |compiled.productions| && d <= |compiled.productions[p].rhs|
    ensures var item := Item(StartItem(compiled, p, origin).dotted + d, origin);
            Known(compiled, item) && RuleExact(compiled, item.dotted)
            && Rule(compiled, item).production == p && Rule(compiled, item).dot == d
            && Rhs(compiled, item) == compiled.productions[p].rhs
  {
    assert OffsetExact(compiled, p);
    assert compiled.dotted[compiled.offsets[p] + d].production == p;
    assert RuleExact(compiled, compiled.offsets[p] + d);
  }

  lemma ItemRule(compiled: CompiledEarley, item: Item)
    requires WellBuilt(compiled) && Known(compiled, item)
    ensures RuleExact(compiled, item.dotted)
    ensures item == Item(StartItem(compiled, Rule(compiled, item).production, item.origin).dotted
                         + Rule(compiled, item).dot, item.origin)
  {
    assert RuleExact(compiled, item.dotted);
  }

  // An item with a symbol after the dot has an advanced item of the same production.
  lemma AdvancedRule(compiled: CompiledEarley, item: Item)
    requires WellBuilt(compiled) && Known(compiled, item) && Rule(compiled, item).next.Some?
    ensures var r := Rule(compiled, item);
            r.dot < |Rhs(compiled, item)| && r.next == Some(Rhs(compiled, item)[r.dot])
            && Known(compiled, Advanced(item))
            && AdvanceItem(compiled, item) == Some(Advanced(item))
            && Rule(compiled, Advanced(item)).production == r.production
            && Rule(compiled, Advanced(item)).dot == r.dot + 1
            && Rule(compiled, Advanced(item)).lhs == r.lhs
            && Rhs(compiled, Advanced(item)) == Rhs(compiled, item)
  {
    var r := Rule(compiled, item);
    assert RuleExact(compiled, item.dotted);
    assert OffsetExact(compiled, r.production);
    assert compiled.dotted[item.dotted + 1].production == r.production;
    assert RuleExact(compiled, item.dotted + 1);
  }

  lemma SymbolKnown(compiled: CompiledEarley, item: Item)
    requires WellBuilt(compiled) && Known(compiled, item) && Rule(compiled, item).next.Some?
    ensures SymbolInRange(Rule(compiled, item).next.value, compiled.grammar.nonterminals, |compiled.grammar.terminals|)
  {
    AdvancedRule(compiled, item);
    ItemRule(compiled, item);
    LhsKnown(compiled, Rule(compiled, item).production);
    var r := Rule(compiled, item);
    assert Rhs(compiled, item)[r.dot] in Rhs(compiled, item);
  }

  ghost predicate IsComplete(compiled: CompiledEarley, item: Item) {
    Known(compiled, item) && Rule(compiled, item).next.None?
  }

  // ---------- Validity: the declarative meaning of an item ----------

  // A spine of unfinished productions from the start production down to a predicted nonterminal.
  datatype Spine = Root | Under(above: Spine, production: nat, dot: nat, origin: nat, left: Forest)

  // The spine predicts nonterminal `a` at position `i` of the input `x`.
  ghost predicate SpineFor(g: Cfg, spine: Spine, x: Word, a: nat, i: nat) {
    match spine
    case Root => a == g.start && i == 0
    case Under(above, p, d, h, left) =>
      && p < |g.productions|
      && d < |g.productions[p].rhs|
      && g.productions[p].rhs[d] == Nonterminal(a)
      && h <= i <= |x|
      && ForestFor(g, left, g.productions[p].rhs[..d])
      && ForestYield(left) == x[h..i]
      && SpineFor(g, above, x, g.productions[p].lhs, h)
  }

  ghost predicate Predicted(g: Cfg, x: Word, a: nat, i: nat) {
    exists spine :: SpineFor(g, spine, x, a, i)
  }

  ghost predicate Valid(compiled: CompiledEarley, x: Word, item: Item, j: nat) {
    && WellBuilt(compiled)
    && Known(compiled, item)
    && item.origin <= j <= |x|
    && Predicted(CfgOf(compiled), x, Rule(compiled, item).lhs, item.origin)
    && Derives(CfgOf(compiled), Rhs(compiled, item)[..Rule(compiled, item).dot], x[item.origin..j])
  }

  // More input never invalidates an item.
  lemma {:induction false} SpineExtends(g: Cfg, spine: Spine, x: Word, y: Word, a: nat, i: nat)
    requires SpineFor(g, spine, x, a, i)
    ensures SpineFor(g, spine, x + y, a, i)
  {
    match spine
    case Root =>
    case Under(above, p, d, h, left) =>
      SpineExtends(g, above, x, y, g.productions[p].lhs, h);
      assert (x + y)[h..i] == x[h..i];
  }

  lemma ValidExtends(compiled: CompiledEarley, x: Word, y: Word, item: Item, j: nat)
    requires Valid(compiled, x, item, j)
    ensures Valid(compiled, x + y, item, j)
  {
    var lhs := Rule(compiled, item).lhs;
    var spine :| SpineFor(CfgOf(compiled), spine, x, lhs, item.origin);
    SpineExtends(CfgOf(compiled), spine, x, y, lhs, item.origin);
    assert (x + y)[item.origin..j] == x[item.origin..j];
  }

  // Moving the dot over a symbol keeps validity when the symbol derives the bytes in between.
  lemma ValidAdvanced(compiled: CompiledEarley, x: Word, item: Item, k: nat, j: nat)
    requires Valid(compiled, x, item, k) && k <= j <= |x| && Rule(compiled, item).next.Some?
    requires Derives(CfgOf(compiled), [Rule(compiled, item).next.value], x[k..j])
    ensures Valid(compiled, x, Advanced(item), j)
  {
    AdvancedRule(compiled, item);
    var rhs := Rhs(compiled, item);
    var dot := Rule(compiled, item).dot;
    DerivesConcat(CfgOf(compiled), rhs[..dot], x[item.origin..k], [rhs[dot]], x[k..j]);
    assert rhs[..dot] + [rhs[dot]] == rhs[..dot + 1];
    assert x[item.origin..k] + x[k..j] == x[item.origin..j];
  }

  // A valid item predicts the nonterminal after its dot.
  lemma ValidPredicts(compiled: CompiledEarley, x: Word, item: Item, j: nat, a: nat)
    requires Valid(compiled, x, item, j) && Rule(compiled, item).next == Some(Nonterminal(a))
    ensures Predicted(CfgOf(compiled), x, a, j)
  {
    AdvancedRule(compiled, item);
    ItemRule(compiled, item);
    var g := CfgOf(compiled);
    var r := Rule(compiled, item);
    var rhs := Rhs(compiled, item);
    var left: Forest :| ForestFor(g, left, rhs[..r.dot]) && ForestYield(left) == x[item.origin..j];
    var above :| SpineFor(g, above, x, r.lhs, item.origin);
    assert SpineFor(g, Under(above, r.production, r.dot, item.origin, left), x, a, j);
  }

  lemma ValidStart(compiled: CompiledEarley, x: Word, p: nat, i: nat)
    requires WellBuilt(compiled) && p < |compiled.productions| && i <= |x|
    requires Predicted(CfgOf(compiled), x, compiled.productions[p].lhs, i)
    ensures Valid(compiled, x, StartItem(compiled, p, i), i)
  {
    StartItemRule(compiled, p, i);
    DerivesEmpty(CfgOf(compiled));
    assert x[i..i] == [];
    assert compiled.productions[p].rhs[..0] == [];
  }

  // A valid completed item certifies that its left-hand side derives the bytes it spans.
  lemma ValidComplete(compiled: CompiledEarley, x: Word, item: Item, j: nat)
    requires Valid(compiled, x, item, j) && IsComplete(compiled, item)
    ensures Derives(CfgOf(compiled), [Nonterminal(Rule(compiled, item).lhs)], x[item.origin..j])
  {
    var p := Rule(compiled, item).production;
    assert RuleExact(compiled, item.dotted);
    assert Rhs(compiled, item)[..Rule(compiled, item).dot] == compiled.productions[p].rhs;
    DerivesProduction(CfgOf(compiled), p, x[item.origin..j]);
    DerivesNonterminal(CfgOf(compiled), Rule(compiled, item).lhs, x[item.origin..j]);
  }

  // ---------- Sound charts ----------

  ghost predicate WaitersSound(compiled: CompiledEarley, column: Column) {
    && (forall a <- column.waitingNonterminal :: column.waitingNonterminal[a] != [])
    && (forall t <- column.waitingTerminal :: column.waitingTerminal[t] != [])
    && (forall a <- column.waitingNonterminal, w <- column.waitingNonterminal[a] ::
          w in column.items && Known(compiled, w) && Rule(compiled, w).next == Some(Nonterminal(a)))
    && (forall t <- column.waitingTerminal, w <- column.waitingTerminal[t] ::
          w in column.items && Known(compiled, w) && Rule(compiled, w).next == Some(Terminal(t)))
  }

  // A Leo entry of column `k` for `a`: whenever `a` derives the bytes that follow, its top item is valid.
  ghost predicate LeoSound(compiled: CompiledEarley, x: Word, k: nat, a: nat, top: Item) {
    && WellBuilt(compiled)
    && IsComplete(compiled, top)
    && top.origin <= k <= |x|
    && Predicted(CfgOf(compiled), x, Rule(compiled, top).lhs, top.origin)
    && forall u: Word :: Derives(CfgOf(compiled), [Nonterminal(a)], u) ==>
         Derives(CfgOf(compiled), Rhs(compiled, top), x[top.origin..k] + u)
  }

  ghost predicate ColumnSound(compiled: CompiledEarley, x: Word, column: Column, c: nat) {
    && column.position == c <= |x|
    && (forall i, j :: 0 <= i < j < |column.items| ==> column.items[i] != column.items[j])
    && (forall item <- column.items :: Valid(compiled, x, item, c))
    && column.membership == (set item <- column.items :: Key(item))
    && WaitersSound(compiled, column)
    && (forall a <- column.leo :: LeoSound(compiled, x, c, a, column.leo[a]))
  }

  ghost predicate ChartSound(compiled: CompiledEarley, x: Word, chart: seq<Column>) {
    && WellBuilt(compiled)
    && |chart| <= |x| + 1 <= TWO_TO_THE_32
    && forall c :: 0 <= c < |chart| ==> ColumnSound(compiled, x, chart[c], c)
  }

  lemma LeoSoundExtends(compiled: CompiledEarley, x: Word, y: Word, k: nat, a: nat, top: Item)
    requires LeoSound(compiled, x, k, a, top)
    ensures LeoSound(compiled, x + y, k, a, top)
  {
    var lhs := Rule(compiled, top).lhs;
    var spine :| SpineFor(CfgOf(compiled), spine, x, lhs, top.origin);
    SpineExtends(CfgOf(compiled), spine, x, y, lhs, top.origin);
    assert (x + y)[top.origin..k] == x[top.origin..k];
  }

  lemma ColumnSoundExtends(compiled: CompiledEarley, x: Word, y: Word, column: Column, c: nat)
    requires ColumnSound(compiled, x, column, c)
    ensures ColumnSound(compiled, x + y, column, c)
  {
    forall item <- column.items ensures Valid(compiled, x + y, item, c) {
      ValidExtends(compiled, x, y, item, c);
    }
    forall a <- column.leo ensures LeoSound(compiled, x + y, c, a, column.leo[a]) {
      LeoSoundExtends(compiled, x, y, c, a, column.leo[a]);
    }
  }

  // ---------- Closed charts ----------

  // Column `c` has drawn every consequence of `item`.
  ghost predicate ItemClosed(compiled: CompiledEarley, chart: seq<Column>, c: nat, item: Item)
    requires c < |chart|
  {
    var column := chart[c];
    Known(compiled, item) &&
    match Rule(compiled, item).next
    case Some(Nonterminal(a)) =>
      && a in column.waitingNonterminal && item in column.waitingNonterminal[a]
      && a < |compiled.startsByLhs| && a < |compiled.grammar.nullable|
      && (forall d <- compiled.startsByLhs[a] :: Item(d, c) in column.items)
      && (compiled.grammar.nullable[a] ==> Advanced(item) in column.items)
    case Some(Terminal(t)) =>
      t in column.waitingTerminal && item in column.waitingTerminal[t]
    case None =>
      Rule(compiled, item).production == compiled.augmentedProduction || item.origin >= c ||
      CompletionDone(chart, c, Rule(compiled, item).lhs, item.origin)
  }

  // The completion of nonterminal `a` over [k, c) has reached column `c`, by Leo's entry or waiter by waiter.
  ghost predicate CompletionDone(chart: seq<Column>, c: nat, a: nat, k: nat)
    requires k < c < |chart|
  {
    if a in chart[k].leo then
      chart[k].leo[a] in chart[c].items
    else
      forall w <- Lookup(chart[k].waitingNonterminal, a) :: Advanced(w) in chart[c].items
  }

  // A Leo entry stands for the one waiter on `a`, which `a` completes, or for the entry above that waiter.
  ghost predicate LeoClosed(compiled: CompiledEarley, chart: seq<Column>, c: nat, a: nat)
    requires c < |chart| && a in chart[c].leo
  {
    var waiters := Lookup(chart[c].waitingNonterminal, a);
    && |waiters| == 1
    && IsComplete(compiled, Advanced(waiters[0]))
    && var up := Advanced(waiters[0]);
       chart[c].leo[a] ==
       if up.origin < c && Rule(compiled, up).lhs in chart[up.origin].leo
       then chart[up.origin].leo[Rule(compiled, up).lhs] else up
  }

  // Whenever terminal `t` matches the bytes between columns `s` and `c`, its waiters have advanced.
  ghost predicate ScanClosed(compiled: CompiledEarley, x: Word, chart: seq<Column>, s: nat, t: nat, c: nat)
    requires s < c < |chart| <= |x| + 1
  {
    t < |compiled.grammar.terminals| && Matches(compiled.grammar.terminals[t], x[s..c]) ==>
      forall w <- Lookup(chart[s].waitingTerminal, t) :: Advanced(w) in chart[c].items
  }

  ghost predicate ChartClosed(compiled: CompiledEarley, x: Word, chart: seq<Column>) {
    && 0 < |chart| <= |x| + 1
    && WellBuilt(compiled)
    && StartItem(compiled, compiled.augmentedProduction, 0) in chart[0].items
    && (forall c: nat, item :: c < |chart| && item in chart[c].items ==> ItemClosed(compiled, chart, c, item))
    && (forall c: nat, a: nat :: c < |chart| && a in chart[c].leo ==> LeoClosed(compiled, chart, c, a))
    && (forall s: nat, t: nat, c: nat :: s < c < |chart| ==> ScanClosed(compiled, x, chart, s, t, c))
  }

  // The active scans: exactly the cursors still alive over a terminal some column waits for.
  ghost predicate ScansExact(compiled: CompiledEarley, x: Word, chart: seq<Column>, scans: seq<Scan>, j: nat)
    requires |chart| == j + 1 == |x| + 1
  {
    forall scan :: scan in scans <==> ActiveAt(compiled, x, chart, scan, j)
  }

  ghost predicate ActiveAt(compiled: CompiledEarley, x: Word, chart: seq<Column>, scan: Scan, j: nat)
    requires |chart| == j + 1 == |x| + 1
  {
    && scan.start <= j
    && scan.terminal in chart[scan.start].waitingTerminal
    && scan.terminal < |compiled.grammar.terminals|
    && var t := compiled.grammar.terminals[scan.terminal];
       Run(t, Start(t), x[scan.start..j]) == Some(scan.cursor)
       && (scan.start < j ==> Terminals.IsLive(t, scan.cursor))
  }

  // ---------- Completeness ----------

  // The item is in column `j`, or it is a completed item whose Leo entry put its top item there.
  ghost predicate Reached(compiled: CompiledEarley, chart: seq<Column>, item: Item, j: nat)
    requires j < |chart|
  {
    item in chart[j].items || LeoSkipped(compiled, chart, item, j)
  }

  ghost predicate LeoSkipped(compiled: CompiledEarley, chart: seq<Column>, item: Item, j: nat)
    requires j < |chart|
  {
    && IsComplete(compiled, item)
    && item.origin < j
    && Rule(compiled, item).lhs in chart[item.origin].leo
    && chart[item.origin].leo[Rule(compiled, item).lhs] in chart[j].items
  }

  ghost predicate Saturated(compiled: CompiledEarley, x: Word, chart: seq<Column>) {
    ChartSound(compiled, x, chart) && ChartClosed(compiled, x, chart)
  }

  lemma ItemFacts(compiled: CompiledEarley, x: Word, chart: seq<Column>, c: nat, item: Item)
    requires Saturated(compiled, x, chart) && c < |chart| && item in chart[c].items
    ensures ItemClosed(compiled, chart, c, item) && Valid(compiled, x, item, c)
  {
    assert ColumnSound(compiled, x, chart[c], c);
  }

  lemma WaiterFacts(compiled: CompiledEarley, x: Word, chart: seq<Column>, c: nat, a: nat, w: Item)
    requires Saturated(compiled, x, chart) && c < |chart|
    requires a in chart[c].waitingNonterminal && w in chart[c].waitingNonterminal[a]
    ensures w in chart[c].items && Valid(compiled, x, w, c) && Rule(compiled, w).next == Some(Nonterminal(a))
  {
    assert ColumnSound(compiled, x, chart[c], c);
  }

  lemma LeoFacts(compiled: CompiledEarley, x: Word, chart: seq<Column>, c: nat, a: nat)
    requires Saturated(compiled, x, chart) && c < |chart| && a in chart[c].leo
    ensures LeoClosed(compiled, chart, c, a)
  {
  }

  lemma ScanFacts(compiled: CompiledEarley, x: Word, chart: seq<Column>, s: nat, t: nat, c: nat, w: Item)
    requires Saturated(compiled, x, chart) && s < c < |chart| && t < |compiled.grammar.terminals|
    requires Matches(compiled.grammar.terminals[t], x[s..c])
    requires t in chart[s].waitingTerminal && w in chart[s].waitingTerminal[t]
    ensures Advanced(w) in chart[c].items
  {
    assert ScanClosed(compiled, x, chart, s, t, c);
  }

  // A reached completion reaches every waiter it is for.
  lemma CompletionReaches(compiled: CompiledEarley, x: Word, chart: seq<Column>, item: Item, w: Item, j: nat)
    requires Saturated(compiled, x, chart)
    requires j < |chart| && Reached(compiled, chart, item, j) && IsComplete(compiled, item) && item.origin < j
    requires Rule(compiled, item).production != compiled.augmentedProduction
    requires Rule(compiled, item).lhs in chart[item.origin].waitingNonterminal
    requires w in chart[item.origin].waitingNonterminal[Rule(compiled, item).lhs]
    ensures Reached(compiled, chart, Advanced(w), j)
  {
    hide Saturated;
    var k := item.origin;
    var a := Rule(compiled, item).lhs;
    WaiterFacts(compiled, x, chart, k, a, w);
    AdvancedRule(compiled, w);
    if item in chart[j].items {
      ItemFacts(compiled, x, chart, j, item);
    }
    if a in chart[k].leo {
      LeoFacts(compiled, x, chart, k, a);
    }
  }

  // The forest of a tree item reaches its completed rule, and that its parent.
  lemma {:induction false} TreeReaches(compiled: CompiledEarley, x: Word, chart: seq<Column>, item: Item, c: nat,
      t: Tree, j: nat)
    requires Saturated(compiled, x, chart) && WellBuilt(compiled) && |chart| <= |x| + 1
    requires c <= j < |chart| && item in chart[c].items && Known(compiled, item) && Rule(compiled, item).next.Some?
    requires TreeFor(CfgOf(compiled), t, Rule(compiled, item).next.value) && Yield(t) == x[c..j]
    ensures Reached(compiled, chart, Advanced(item), j)
    decreases t
  {
    hide Saturated, WellBuilt;
    ItemFacts(compiled, x, chart, c, item);
    SymbolKnown(compiled, item);
    match t
    case Leaf(id, w) =>
      LeafNonempty(compiled, id, w);
      ScanFacts(compiled, x, chart, c, id, j, item);
    case Node(p, kids) =>
      if c == j {
        assert x[c..j] == [];
        NullableTree(compiled, t);
      } else {
        NodeReaches(compiled, x, chart, item, c, p, kids, j);
      }
  }

  lemma LeafNonempty(compiled: CompiledEarley, id: nat, w: Word)
    requires WellBuilt(compiled) && id < |CfgOf(compiled).languages| && w in CfgOf(compiled).languages[id]
    ensures w != [] && id < |compiled.grammar.terminals| && Matches(compiled.grammar.terminals[id], w)
  {
    LeafWordsNonempty(compiled.grammar, id, w);
  }

  lemma NullableTree(compiled: CompiledEarley, t: Tree)
    requires WellBuilt(compiled) && t.Node? && t.production < |CfgOf(compiled).productions|
    requires TreeFor(CfgOf(compiled), t, Nonterminal(CfgOf(compiled).productions[t.production].lhs)) && Yield(t) == []
    requires CfgOf(compiled).productions[t.production].lhs < compiled.grammar.nonterminals
    ensures compiled.grammar.nullable[CfgOf(compiled).productions[t.production].lhs]
  {
    var a := CfgOf(compiled).productions[t.production].lhs;
    assert Generates(CfgOf(compiled), a, []);
    AugmentedGenerates(compiled.grammar, a, []);
  }

  lemma {:induction false} NodeReaches(compiled: CompiledEarley, x: Word, chart: seq<Column>, item: Item, c: nat,
      p: nat, kids: Forest, j: nat)
    requires Saturated(compiled, x, chart) && WellBuilt(compiled) && |chart| <= |x| + 1
    requires c < j < |chart| && item in chart[c].items && Known(compiled, item)
    requires p < |compiled.productions|
    requires Rule(compiled, item).next == Some(Nonterminal(compiled.productions[p].lhs))
    requires ForestFor(CfgOf(compiled), kids, compiled.productions[p].rhs) && ForestYield(kids) == x[c..j]
    ensures Reached(compiled, chart, Advanced(item), j)
    decreases kids, 1
  {
    hide Saturated, WellBuilt;
    var rhs := compiled.productions[p].rhs;
    var start := StartItem(compiled, p, c);
    StartItemRule(compiled, p, c);
    ItemFacts(compiled, x, chart, c, item);
    SymbolKnown(compiled, item);
    LhsKnown(compiled, p);
    assert rhs[0..|rhs|] == rhs;
    ForestReaches(compiled, x, chart, start, c, kids, |rhs|, j);
    DottedAt(compiled, p, |rhs|, c);
    var done := Item(start.dotted + |rhs|, c);
    CompletionReaches(compiled, x, chart, done, item, j);
  }

  // The dot moves over the next `n` symbols of an item; the last position may be reached through Leo.
  lemma {:induction false} ForestReaches(compiled: CompiledEarley, x: Word, chart: seq<Column>, item: Item, c: nat,
      f: Forest, n: nat, j: nat)
    requires Saturated(compiled, x, chart) && WellBuilt(compiled) && |chart| <= |x| + 1
    requires c <= j < |chart| && item in chart[c].items && Known(compiled, item)
    requires Rule(compiled, item).dot + n <= |Rhs(compiled, item)|
    requires ForestFor(CfgOf(compiled), f, Rhs(compiled, item)[Rule(compiled, item).dot..Rule(compiled, item).dot + n])
    requires ForestYield(f) == x[c..j]
    ensures Reached(compiled, chart, Item(item.dotted + n, item.origin), j)
    decreases f, 0
  {
    hide Saturated, WellBuilt;
    var dot := Rule(compiled, item).dot;
    var alpha := Rhs(compiled, item)[dot..dot + n];
    match f
    case Nil =>
      assert n == |alpha| == 0;
      assert |x[c..j]| == 0;
    case Cons(t, rest) =>
      var m := c + |Yield(t)|;
      SplitSlice(x, c, j, Yield(t), ForestYield(rest));
      ItemRule(compiled, item);
      AdvancedRule(compiled, item);
      assert alpha[0] == Rhs(compiled, item)[dot];
      TreeReaches(compiled, x, chart, item, c, t, m);
      var up := Advanced(item);
      assert alpha[1..] == Rhs(compiled, up)[dot + 1..dot + n];
      if rest == Nil {
        assert |alpha[1..]| == n - 1;
        assert |x[m..j]| == 0;
      } else {
        ItemRule(compiled, up);
        ForestReaches(compiled, x, chart, up, m, rest, n - 1, j);
      }
  }

  lemma SplitSlice(x: Word, c: nat, j: nat, u: Word, v: Word)
    requires c <= j <= |x| && u + v == x[c..j]
    ensures c + |u| <= j && u == x[c..c + |u|] && v == x[c + |u|..j]
  {
    assert |x[c..j]| == j - c;
    assert u == (u + v)[..|u|] && v == (u + v)[|u|..];
    assert x[c..j][..|u|] == x[c..c + |u|];
    assert x[c..j][|u|..] == x[c + |u|..j];
  }

  // A predicted nonterminal has all its start items in the column that predicts it.
  lemma {:induction false} SpineReaches(compiled: CompiledEarley, x: Word, chart: seq<Column>, spine: Spine, p: nat,
      i: nat)
    requires Saturated(compiled, x, chart) && WellBuilt(compiled) && |chart| <= |x| + 1
    requires i < |chart| && p < |compiled.productions|
    requires SpineFor(CfgOf(compiled), spine, x, compiled.productions[p].lhs, i)
    ensures StartItem(compiled, p, i) in chart[i].items
    decreases spine
  {
    hide Saturated, WellBuilt;
    StartItemRule(compiled, p, i);
    LhsKnown(compiled, p);
    match spine
    case Root =>
      StartFacts(compiled, x, chart, p);
    case Under(above, q, d, h, left) =>
      var start := StartItem(compiled, q, h);
      StartItemRule(compiled, q, h);
      SpineReaches(compiled, x, chart, above, q, h);
      assert Rhs(compiled, start)[0..d] == Rhs(compiled, start)[..d];
      ForestReaches(compiled, x, chart, start, h, left, d, i);
      DottedAt(compiled, q, d, h);
      ItemFacts(compiled, x, chart, i, Item(start.dotted + d, h));
  }

  lemma StartFacts(compiled: CompiledEarley, x: Word, chart: seq<Column>, p: nat)
    requires Saturated(compiled, x, chart) && WellBuilt(compiled)
    requires p < |compiled.productions| && compiled.productions[p].lhs == compiled.grammar.nonterminals
    ensures |chart| > 0 && StartItem(compiled, p, 0) in chart[0].items
  {
    LhsKnown(compiled, p);
  }

  // Every valid item is reached: present, or completed and stood for by a Leo entry.
  lemma ValidReached(compiled: CompiledEarley, x: Word, chart: seq<Column>, item: Item, j: nat)
    requires Saturated(compiled, x, chart) && |chart| <= |x| + 1
    requires j < |chart| && Valid(compiled, x, item, j)
    ensures Reached(compiled, chart, item, j)
  {
    hide Saturated, WellBuilt;
    var g := CfgOf(compiled);
    var r := Rule(compiled, item);
    ItemRule(compiled, item);
    var spine :| SpineFor(g, spine, x, r.lhs, item.origin);
    SpineReaches(compiled, x, chart, spine, r.production, item.origin);
    var start := StartItem(compiled, r.production, item.origin);
    StartItemRule(compiled, r.production, item.origin);
    var f: Forest :| ForestFor(g, f, Rhs(compiled, item)[..r.dot]) && ForestYield(f) == x[item.origin..j];
    assert Rhs(compiled, start)[0..r.dot] == Rhs(compiled, item)[..r.dot];
    ForestReaches(compiled, x, chart, start, item.origin, f, r.dot, j);
  }
}
