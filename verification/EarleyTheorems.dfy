/**
 What the Earley recognizer promises, for every grammar, every input and both Leo settings.
 */
module EarleyTheorems {
  import opened Grammars
  import opened Terminals
  import opened Runtime
  import opened ResidualGrammars
  import opened Earley
  import opened EarleyChart
  import opened EarleyInvariant

  // The recognizer fed the bytes of `x` from a fresh start; it stops at the first error.
  function Feed(cf: Config, x: Word): Outcome<State, ()>
    decreases |x|
  {
    if x == [] then
      Initial(cf)
    else
      var (st, _) :- Feed(cf, x[..|x| - 1]);
      var (st1, _) :- AdvanceByte(cf, st, x[|x| - 1]);
      Done(st1, ())
  }

  // Every reachable state is exact, and the only way to stop short is to overrun a limit.
  lemma {:induction false} FeedConsumes(cf: Config, x: Word)
    requires WellBuilt(cf.compiled)
    ensures Feed(cf, x).Done? ==> Consumed(cf, x, Feed(cf, x).state)
    ensures Feed(cf, x).Failed? ==> Overrun(cf.limits, Feed(cf, x).error)
    decreases |x|
  {
    hide Consumed, WellBuilt, Initial, AdvanceByte;
    if x == [] {
      InitialConsumes(cf);
    } else {
      var front := x[..|x| - 1];
      FeedConsumes(cf, front);
      var r := Feed(cf, front);
      if r.Done? {
        AdvanceByteConsumes(cf, front, r.state, x[|x| - 1]);
        assert front + [x[|x| - 1]] == x;
      }
    }
  }

  // Items whose presence no setting may change: a symbol after the dot, or the accepting production.
  ghost predicate Essential(compiled: CompiledEarley, item: Item) {
    Known(compiled, item) &&
    (Rule(compiled, item).next.Some? || Rule(compiled, item).production == compiled.augmentedProduction)
  }

  // Chart exactness, with Leo on or off: every item in a column is valid, and every essential valid
  // item is in the column.
  lemma ChartExact(cf: Config, x: Word, st: State, item: Item, j: nat)
    requires Consumed(cf, x, st) && j <= |x|
    ensures item in st.chart[j].items ==> Valid(cf.compiled, x, item, j)
    ensures Essential(cf.compiled, item) && Valid(cf.compiled, x, item, j) ==> item in st.chart[j].items
  {
    hide Valid, WellBuilt;
    if item in st.chart[j].items {
      ItemFacts(cf.compiled, x, st.chart, j, item);
    }
    if Essential(cf.compiled, item) && Valid(cf.compiled, x, item, j) {
      ValidReached(cf.compiled, x, st.chart, item, j);
      if LeoSkipped(cf.compiled, st.chart, item, j) {
        NobodyAwaitsAugmented(cf, x, st, item);
      }
    }
  }

  // No Leo entry is ever kept for the augmented start symbol.
  lemma NobodyAwaitsAugmented(cf: Config, x: Word, st: State, item: Item)
    requires Consumed(cf, x, st) && Known(cf.compiled, item) && item.origin <= |x|
    requires Rule(cf.compiled, item).production == cf.compiled.augmentedProduction
    ensures Rule(cf.compiled, item).lhs !in st.chart[item.origin].leo
  {
    hide Consumed;
    ConsumedFacts(cf, x, st);
    ConsumedShape(cf, x, st);
    ItemRule(cf.compiled, item);
    LhsKnown(cf.compiled, cf.compiled.augmentedProduction);
    var a := Rule(cf.compiled, item).lhs;
    if a in st.chart[item.origin].leo {
      ConsumedSaturated(cf, x, st);
      LeoFacts(cf.compiled, x, st.chart, item.origin, a);
      var w := Lookup(st.chart[item.origin].waitingNonterminal, a)[0];
      WaiterFacts(cf.compiled, x, st.chart, item.origin, a, w);
      SymbolKnown(cf.compiled, w);
    }
  }

  lemma ConsumedSaturated(cf: Config, x: Word, st: State)
    requires Consumed(cf, x, st)
    ensures Saturated(cf.compiled, x, st.chart)
  {
  }

  // With Leo off the chart holds exactly the valid items.
  lemma ChartExactWithoutLeo(cf: Config, x: Word, st: State, item: Item, j: nat)
    requires Consumed(cf, x, st) && !cf.leoEnabled && j <= |x|
    ensures item in st.chart[j].items <==> Valid(cf.compiled, x, item, j)
  {
    hide Valid, WellBuilt, Saturated;
    ChartExact(cf, x, st, item, j);
    if Valid(cf.compiled, x, item, j) {
      ValidReached(cf.compiled, x, st.chart, item, j);
    }
  }

  // A column holds at most one item per dotted rule and origin.
  lemma ColumnSize(cf: Config, x: Word, st: State, j: nat)
    requires Consumed(cf, x, st) && j <= |x|
    ensures |st.chart[j].items| <= |cf.compiled.dotted| * (j + 1)
  {
    assert ColumnSound(cf.compiled, x, st.chart[j], j);
    ColumnBound(cf.compiled, x, st.chart[j].items, j);
  }

  // ---------- Acceptance ----------

  lemma AcceptItem(compiled: CompiledEarley, x: Word)
    requires WellBuilt(compiled)
    ensures var item := Item(compiled.augmentedComplete, 0);
            Essential(compiled, item) && AcceptKey(compiled) == Key(item)
            && (Valid(compiled, x, item, |x|) <==> Accepts(AsCfg(compiled.grammar), x))
  {
    var p := compiled.augmentedProduction;
    var item := Item(compiled.augmentedComplete, 0);
    LhsKnown(compiled, p);
    DottedAt(compiled, p, 1, 0);
    var g := CfgOf(compiled);
    var s := compiled.grammar.start;
    assert SpineFor(g, Root, x, compiled.grammar.nonterminals, 0);
    assert Rhs(compiled, item)[..1] == [Nonterminal(s)];
    assert x[0..|x|] == x;
    DerivesNonterminal(g, s, x);
    AugmentedGenerates(compiled.grammar, s, x);
  }

  // The recognizer accepts exactly the language of the grammar.
  lemma AcceptsExactly(cf: Config, x: Word, st: State)
    requires Consumed(cf, x, st)
    ensures Earley.IsAccepting(cf, st) <==> Accepts(AsCfg(cf.compiled.grammar), x)
  {
    var item := Item(cf.compiled.augmentedComplete, 0);
    AcceptItem(cf.compiled, x);
    ChartExact(cf, x, st, item, |x|);
    var column := st.chart[|x|];
    assert ColumnSound(cf.compiled, x, column, |x|);
    if Earley.IsAccepting(cf, st) {
      var other :| other in column.items && Key(other) == Key(item);
      assert Valid(cf.compiled, x, other, |x|);
      KeyInjective(item, other);
    }
  }

  lemma FeedAcceptsExactly(cf: Config, x: Word)
    requires WellBuilt(cf.compiled) && Feed(cf, x).Done?
    ensures Earley.IsAccepting(cf, Feed(cf, x).state) <==> Accepts(AsCfg(cf.compiled.grammar), x)
  {
    FeedConsumes(cf, x);
    AcceptsExactly(cf, x, Feed(cf, x).state);
  }

  // ---------- Leo changes the work, never the answer ----------

  lemma AwaitedTerminal(cf: Config, x: Word, st: State, j: nat, t: nat)
    requires Consumed(cf, x, st) && j <= |x|
    ensures t in st.chart[j].waitingTerminal <==>
            exists item :: item in st.chart[j].items && Known(cf.compiled, item)
                           && Rule(cf.compiled, item).next == Some(Terminal(t))
  {
    assert ColumnSound(cf.compiled, x, st.chart[j], j);
    if t in st.chart[j].waitingTerminal {
      var w := st.chart[j].waitingTerminal[t][0];
      assert w in st.chart[j].waitingTerminal[t];
      assert w in st.chart[j].items && Known(cf.compiled, w) && Rule(cf.compiled, w).next == Some(Terminal(t));
    }
    if item :| item in st.chart[j].items && Known(cf.compiled, item)
               && Rule(cf.compiled, item).next == Some(Terminal(t)) {
      assert ItemClosed(cf.compiled, st.chart, j, item);
    }
  }

  lemma SameAwaited(on: Config, off: Config, x: Word, a: State, b: State, j: nat, t: nat)
    requires on.compiled == off.compiled && Consumed(on, x, a) && Consumed(off, x, b) && j <= |x|
    requires t in a.chart[j].waitingTerminal
    ensures t in b.chart[j].waitingTerminal
  {
    hide Consumed;
    ConsumedShape(on, x, a);
    ConsumedShape(off, x, b);
    AwaitedTerminal(on, x, a, j, t);
    AwaitedTerminal(off, x, b, j, t);
    var item :| item in a.chart[j].items && Known(on.compiled, item)
      && Rule(on.compiled, item).next == Some(Terminal(t));
    ChartExact(on, x, a, item, j);
    ChartExact(off, x, b, item, j);
  }

  // Leo on and off agree on every incomplete item, the accepting item, every active scan, acceptance
  // and liveness; the Leo chart is a subset of the other.
  lemma LeoEquivalence(on: Config, off: Config, x: Word, a: State, b: State)
    requires on.compiled == off.compiled && on.leoEnabled && !off.leoEnabled
    requires Consumed(on, x, a) && Consumed(off, x, b)
    ensures forall j: nat, item :: j <= |x| && item in a.chart[j].items ==> item in b.chart[j].items
    ensures forall j: nat, item :: j <= |x| && Essential(on.compiled, item) ==>
              (item in a.chart[j].items <==> item in b.chart[j].items)
    ensures forall scan :: scan in a.scans <==> scan in b.scans
    ensures Earley.IsAccepting(on, a) == Earley.IsAccepting(off, b)
    ensures Earley.IsLive(on, a) == Earley.IsLive(off, b)
  {
    hide Valid, WellBuilt, Saturated, Essential;
    forall j: nat, item | j <= |x| && item in a.chart[j].items ensures item in b.chart[j].items {
      ChartExact(on, x, a, item, j);
      ChartExactWithoutLeo(off, x, b, item, j);
    }
    forall j: nat, item | j <= |x| && Essential(on.compiled, item) && item in b.chart[j].items
      ensures item in a.chart[j].items
    {
      ChartExact(on, x, a, item, j);
      ChartExactWithoutLeo(off, x, b, item, j);
    }
    SameScans(on, off, x, a, b);
    SameScans(off, on, x, b, a);
    AcceptsExactly(on, x, a);
    AcceptsExactly(off, x, b);
    assert a.scans != [] ==> a.scans[0] in b.scans;
    assert b.scans != [] ==> b.scans[0] in a.scans;
  }

  lemma SameScans(on: Config, off: Config, x: Word, a: State, b: State)
    requires on.compiled == off.compiled && Consumed(on, x, a) && Consumed(off, x, b)
    ensures forall scan :: scan in a.scans ==> scan in b.scans
  {
    hide Valid, WellBuilt, Saturated;
    forall scan | scan in a.scans ensures scan in b.scans {
      assert ActiveAt(on.compiled, x, a.chart, scan, |x|);
      SameAwaited(on, off, x, a, b, scan.start, scan.terminal);
      assert ActiveAt(off.compiled, x, b.chart, scan, |x|);
    }
  }

  // Whole runs: both settings accept the same inputs and are live on the same prefixes.
  lemma LeoRunsAgree(on: Config, off: Config, x: Word)
    requires on.compiled == off.compiled && on.leoEnabled && !off.leoEnabled && WellBuilt(on.compiled)
    requires Feed(on, x).Done? && Feed(off, x).Done?
    ensures Earley.IsAccepting(on, Feed(on, x).state) == Earley.IsAccepting(off, Feed(off, x).state)
    ensures Earley.IsLive(on, Feed(on, x).state) == Earley.IsLive(off, Feed(off, x).state)
  {
    FeedConsumes(on, x);
    FeedConsumes(off, x);
    LeoEquivalence(on, off, x, Feed(on, x).state, Feed(off, x).state);
  }

  // ---------- Liveness ----------

  // A predicted nonterminal that derives `v` from position i on extends to a whole word of the grammar.
  lemma {:induction false} SpineCompletes(compiled: CompiledEarley, spine: Spine, x: Word, a: nat, i: nat, v: Word)
      returns (y: Word)
    requires WellBuilt(compiled) && Productive(compiled.grammar)
    requires SpineFor(CfgOf(compiled), spine, x, a, i) && i <= |x|
    requires Derives(CfgOf(compiled), [Nonterminal(a)], v)
    ensures Generates(CfgOf(compiled), compiled.grammar.nonterminals, x[..i] + v + y)
  {
    var g := CfgOf(compiled);
    match spine
    case Root =>
      y := [];
      DerivesNonterminal(g, a, v);
      assert x[..0] + v + [] == v;
    case Under(above, p, d, h, left) =>
      var rhs := g.productions[p].rhs;
      LhsKnown(compiled, p);
      var more := ProductiveForest(compiled.grammar, rhs[d + 1..]);
      var rest := ForestYield(more);
      DerivesConcat(g, rhs[..d], x[h..i], [rhs[d]], v);
      DerivesConcat(g, rhs[..d] + [rhs[d]], x[h..i] + v, rhs[d + 1..], rest);
      assert rhs[..d] + [rhs[d]] + rhs[d + 1..] == rhs;
      DerivesProduction(g, p, x[h..i] + v + rest);
      DerivesNonterminal(g, g.productions[p].lhs, x[h..i] + v + rest);
      var up := SpineCompletes(compiled, above, x, g.productions[p].lhs, h, x[h..i] + v + rest);
      y := rest + up;
      assert x[..h] + (x[h..i] + v + rest) + up == x[..i] + v + y by {
        assert x[..h] + x[h..i] == x[..i];
      }
  }

  lemma AugmentedAccepts(compiled: CompiledEarley, w: Word)
    requires WellBuilt(compiled)
    ensures Generates(CfgOf(compiled), compiled.grammar.nonterminals, w) <==> Accepts(AsCfg(compiled.grammar), w)
  {
    var g := CfgOf(compiled);
    var s := compiled.grammar.start;
    AugmentedGenerates(compiled.grammar, s, w);
    DerivesNonterminal(g, s, w);
    if Generates(g, compiled.grammar.nonterminals, w) {
      var t: Tree :| TreeFor(g, t, Nonterminal(compiled.grammar.nonterminals)) && Yield(t) == w;
      LhsKnown(compiled, t.production);
      SingleForest(g, t.kids, Nonterminal(s));
      assert TreeFor(g, t.kids.head, Nonterminal(s));
    }
    if Accepts(AsCfg(compiled.grammar), w) {
      LhsKnown(compiled, compiled.augmentedProduction);
      DerivesProduction(g, compiled.augmentedProduction, w);
    }
  }

  // An active cursor can be driven to acceptance.
  lemma ScanMatches(cf: Config, x: Word, st: State, scan: Scan) returns (more: Word)
    requires Consumed(cf, x, st) && Productive(cf.compiled.grammar) && scan in st.scans
    ensures scan.start <= |x| && scan.terminal < |cf.compiled.grammar.terminals| && |st.chart| == |x| + 1
    ensures scan.terminal in st.chart[scan.start].waitingTerminal
    ensures Matches(cf.compiled.grammar.terminals[scan.terminal], x[scan.start..] + more)
  {
    hide Saturated;
    ConsumedFacts(cf, x, st);
    assert ActiveAt(cf.compiled, x, st.chart, scan, |x|);
    var t := cf.compiled.grammar.terminals[scan.terminal];
    assert t in cf.compiled.grammar.terminals && WellFormedTerminal(t) && MatchesSome(t);
    assert x[scan.start..|x|] == x[scan.start..];
    if scan.start < |x| {
      more := LiveMeansExtensible(t, scan.cursor);
    } else {
      more :| Matches(t, more);
      assert x[scan.start..] == [];
    }
    RunAppend(t, Start(t), x[scan.start..], more);
  }

  // An active scan has a continuation to a whole word.
  lemma ScanExtends(cf: Config, x: Word, st: State, scan: Scan) returns (y: Word)
    requires Consumed(cf, x, st) && Productive(cf.compiled.grammar) && scan in st.scans
    ensures Accepts(AsCfg(cf.compiled.grammar), x + y)
  {
    hide *;
    var more := ScanMatches(cf, x, st, scan);
    var item := WaitingItem(cf, x, st, scan);
    ScannedItem(cf, x, st, scan, item, more);
    var rest := ValidItemCompletes(cf.compiled, x + more, Advanced(item));
    y := more + rest;
    assert (x + more) + rest == x + y;
  }

  // The item an active scan was started for.
  lemma WaitingItem(cf: Config, x: Word, st: State, scan: Scan) returns (item: Item)
    requires Consumed(cf, x, st) && scan.start <= |x| && |st.chart| == |x| + 1
    requires scan.terminal in st.chart[scan.start].waitingTerminal
    ensures WellBuilt(cf.compiled) && item.dotted < |cf.compiled.dotted|
    ensures Rule(cf.compiled, item).next == Some(Terminal(scan.terminal)) && Valid(cf.compiled, x, item, scan.start)
  {
    hide Consumed, WellBuilt, Valid;
    ConsumedFacts(cf, x, st);
    ConsumedSaturated(cf, x, st);
    AwaitedTerminal(cf, x, st, scan.start, scan.terminal);
    item :| item in st.chart[scan.start].items && Known(cf.compiled, item)
            && Rule(cf.compiled, item).next == Some(Terminal(scan.terminal));
    ItemFacts(cf.compiled, x, st.chart, scan.start, item);
  }

  // Reading the scan to its end advances the item over the terminal.
  lemma ScannedItem(cf: Config, x: Word, st: State, scan: Scan, item: Item, more: Word)
    requires WellBuilt(cf.compiled) && item.dotted < |cf.compiled.dotted| && scan.start <= |x|
    requires Rule(cf.compiled, item).next == Some(Terminal(scan.terminal)) && Valid(cf.compiled, x, item, scan.start)
    requires scan.terminal < |cf.compiled.grammar.terminals|
    requires Matches(cf.compiled.grammar.terminals[scan.terminal], x[scan.start..] + more)
    ensures Valid(cf.compiled, x + more, Advanced(item), |x + more|)
  {
    hide WellBuilt, Valid;
    var z, s := x + more, scan.start;
    assert z[s..|z|] == x[s..] + more;
    ValidExtends(cf.compiled, x, more, item, s);
    ScannedDerives(cf.compiled, z, s, |z|, scan.terminal);
    ValidAdvanced(cf.compiled, z, item, s, |z|);
  }

  // A valid item at the end of `z` extends to a whole word.
  lemma ValidItemCompletes(compiled: CompiledEarley, z: Word, item: Item) returns (y: Word)
    requires Productive(compiled.grammar) && Valid(compiled, z, item, |z|)
    ensures Accepts(AsCfg(compiled.grammar), z + y)
  {
    hide *;
    var rest := ItemFinishes(compiled, z, item);
    var a, h := Rule(compiled, item).lhs, item.origin;
    var spine: Spine := PredictedSpine(compiled, z, item);
    var up := SpineCompletes(compiled, spine, z, a, h, z[h..] + rest);
    y := rest + up;
    assert z[..h] + (z[h..] + rest) + up == z + y by {
      assert z[..h] + z[h..] == z;
    }
    AugmentedAccepts(compiled, z + y);
  }

  lemma PredictedSpine(compiled: CompiledEarley, z: Word, item: Item) returns (spine: Spine)
    requires WellBuilt(compiled) && Valid(compiled, z, item, |z|)
    ensures SpineFor(CfgOf(compiled), spine, z, Rule(compiled, item).lhs, item.origin)
  {
    hide WellBuilt;
    spine :| SpineFor(CfgOf(compiled), spine, z, Rule(compiled, item).lhs, item.origin);
  }

  // The rest of a valid item's rule derives some word.
  lemma ItemFinishes(compiled: CompiledEarley, z: Word, item: Item) returns (rest: Word)
    requires Productive(compiled.grammar) && Valid(compiled, z, item, |z|)
    ensures WellBuilt(compiled) && InRange(compiled.grammar) && item.dotted < |compiled.dotted| && item.origin <= |z|
    ensures Derives(CfgOf(compiled), [Nonterminal(Rule(compiled, item).lhs)], z[item.origin..] + rest)
  {
    hide Productive, ForestFor;
    var g := CfgOf(compiled);
    var r := Rule(compiled, item);
    var rhs := Rhs(compiled, item);
    ItemRule(compiled, item);
    LhsKnown(compiled, r.production);
    var more := ProductiveForest(compiled.grammar, rhs[r.dot..]);
    rest := ForestYield(more);
    var read := z[item.origin..|z|];
    assert read == z[item.origin..];
    ForestDerives(g, more, rhs[r.dot..]);
    DerivesConcat(g, rhs[..r.dot], read, rhs[r.dot..], rest);
    assert rhs[..r.dot] + rhs[r.dot..] == rhs;
    DerivesProduction(g, r.production, read + rest);
    DerivesNonterminal(g, r.lhs, read + rest);
  }

  lemma ForestDerives(g: Cfg, f: Forest, alpha: seq<Symbol>)
    requires ForestFor(g, f, alpha)
    ensures Derives(g, alpha, ForestYield(f))
  {
  }

  // Conversely, a derivation that goes past the end of `x` is being scanned.
  lemma {:induction false} TreeStraddles(cf: Config, x: Word, st: State, z: Word, item: Item, c: nat, t: Tree)
    requires Consumed(cf, x, st) && x <= z && c <= |x| && item in st.chart[c].items
    requires Known(cf.compiled, item) && Rule(cf.compiled, item).next.Some?
    requires TreeFor(CfgOf(cf.compiled), t, Rule(cf.compiled, item).next.value)
    requires c + |Yield(t)| <= |z| && Yield(t) == z[c..c + |Yield(t)|] && c + |Yield(t)| > |x|
    ensures st.scans != []
    decreases t
  {
    hide Consumed, WellBuilt;
    ConsumedShape(cf, x, st);
    ConsumedFacts(cf, x, st);
    match t
    case Leaf(id, w) =>
      LeafStraddles(cf, x, st, z, item, c, id, w);
    case Node(p, kids) =>
      var start := StartItem(cf.compiled, p, c);
      StartItemRule(cf.compiled, p, c);
      ConsumedSaturated(cf, x, st);
      ItemFacts(cf.compiled, x, st.chart, c, item);
      SymbolKnown(cf.compiled, item);
      assert Rhs(cf.compiled, start)[0..] == Rhs(cf.compiled, start);
      ForestStraddles(cf, x, st, z, start, c, kids);
  }

  lemma LeafStraddles(cf: Config, x: Word, st: State, z: Word, item: Item, c: nat, id: nat, w: Word)
    requires Consumed(cf, x, st) && x <= z && c <= |x| && item in st.chart[c].items
    requires Known(cf.compiled, item) && Rule(cf.compiled, item).next == Some(Terminal(id))
    requires id < |CfgOf(cf.compiled).languages| && w in CfgOf(cf.compiled).languages[id]
    requires c + |w| <= |z| && w == z[c..c + |w|] && c + |w| > |x|
    ensures st.scans != []
  {
    hide Saturated;
    ConsumedFacts(cf, x, st);
    var t := cf.compiled.grammar.terminals[id];
    assert t in cf.compiled.grammar.terminals && WellFormedTerminal(t);
    LeafNonempty(cf.compiled, id, w);
    var j := |x|;
    var more := z[j..c + |w|];
    CutSlice(x, z, c, c + |w|);
    RunAppend(t, Start(t), x[c..j], more);
    var cursor := Run(t, Start(t), x[c..j]).value;
    ExtensibleMeansLive(t, cursor, more);
    AwaitedTerminal(cf, x, st, c, id);
    assert ActiveAt(cf.compiled, x, st.chart, Scan(id, c, cursor), j);
  }

  lemma CutSlice(x: Word, z: Word, c: nat, end: nat)
    requires x <= z && c <= |x| <= end <= |z|
    ensures z[c..end] == x[c..|x|] + z[|x|..end]
  {
    assert z[c..end] == z[c..|x|] + z[|x|..end];
    assert z[c..|x|] == x[c..|x|];
  }

  lemma {:induction false} ForestStraddles(cf: Config, x: Word, st: State, z: Word, item: Item, c: nat, f: Forest)
    requires Consumed(cf, x, st) && x <= z && c <= |x| && item in st.chart[c].items
    requires Known(cf.compiled, item) && WellBuilt(cf.compiled)
    requires ForestFor(CfgOf(cf.compiled), f, Rhs(cf.compiled, item)[Rule(cf.compiled, item).dot..])
    requires c + |ForestYield(f)| <= |z| && ForestYield(f) == z[c..c + |ForestYield(f)|] && c + |ForestYield(f)| > |x|
    ensures st.scans != []
    decreases f
  {
    hide *;
    var compiled := cf.compiled;
    var t, rest := ForestParts(compiled, item, f);
    var m := c + |Yield(t)|;
    ConsumedShape(cf, x, st);
    SplitSlice(z, c, c + |ForestYield(f)|, Yield(t), ForestYield(rest));
    if m > |x| {
      TreeStraddles(cf, x, st, z, item, c, t);
    } else {
      assert Yield(t) == x[c..m];
      ConsumedSaturated(cf, x, st);
      TreeReaches(compiled, x, st.chart, item, c, t, m);
      UnfinishedReached(compiled, st.chart, Advanced(item), m, rest);
      ForestStraddles(cf, x, st, z, Advanced(item), m, rest);
    }
  }

  // Leo entries stand in for finished items only.
  lemma UnfinishedReached(compiled: CompiledEarley, chart: seq<Column>, item: Item, m: nat, rest: Forest)
    requires WellBuilt(compiled) && Known(compiled, item) && m < |chart| && Reached(compiled, chart, item, m)
    requires ForestFor(CfgOf(compiled), rest, Rhs(compiled, item)[Rule(compiled, item).dot..])
    requires ForestYield(rest) != []
    ensures item in chart[m].items
  {
    hide WellBuilt;
    ItemRule(compiled, item);
  }

  // The first tree of what is left of an item's rule, and what is left after it.
  lemma ForestParts(compiled: CompiledEarley, item: Item, f: Forest) returns (t: Tree, rest: Forest)
    requires WellBuilt(compiled) && Known(compiled, item)
    requires ForestFor(CfgOf(compiled), f, Rhs(compiled, item)[Rule(compiled, item).dot..]) && ForestYield(f) != []
    ensures f == Cons(t, rest) && ForestYield(f) == Yield(t) + ForestYield(rest)
    ensures item.dotted < |compiled.dotted| && Advanced(item).dotted < |compiled.dotted|
    ensures Known(compiled, Advanced(item))
    ensures Rule(compiled, item).next.Some? && TreeFor(CfgOf(compiled), t, Rule(compiled, item).next.value)
    ensures ForestFor(CfgOf(compiled), rest, Rhs(compiled, Advanced(item))[Rule(compiled, Advanced(item)).dot..])
  {
    hide WellBuilt;
    t, rest := f.head, f.tail;
    ItemRule(compiled, item);
    AdvancedRule(compiled, item);
    var dot := Rule(compiled, item).dot;
    assert Rhs(compiled, item)[dot..][1..] == Rhs(compiled, item)[dot + 1..];
  }

  // Liveness is exact: the recognizer is live after `x` if and only if some continuation is accepted.
  lemma LiveExactly(cf: Config, x: Word, st: State)
    requires Consumed(cf, x, st) && Productive(cf.compiled.grammar)
    ensures Earley.IsLive(cf, st) <==> exists y: Word :: Accepts(AsCfg(cf.compiled.grammar), x + y)
  {
    var g := AsCfg(cf.compiled.grammar);
    AcceptsExactly(cf, x, st);
    assert x + [] == x;
    if Earley.IsLive(cf, st) && st.scans != [] {
      var y := ScanExtends(cf, x, st, st.scans[0]);
      assert Accepts(g, x + y);
    }
    if y: Word :| Accepts(g, x + y) {
      if y != [] {
        AcceptedScans(cf, x, st, y);
      }
    }
  }

  lemma AcceptedScans(cf: Config, x: Word, st: State, y: Word)
    requires Consumed(cf, x, st) && y != [] && Accepts(AsCfg(cf.compiled.grammar), x + y)
    ensures st.scans != []
  {
    hide Consumed;
    var compiled := cf.compiled;
    var z := x + y;
    ConsumedShape(cf, x, st);
    ConsumedFacts(cf, x, st);
    AugmentedAccepts(compiled, z);
    var t: Tree :| TreeFor(CfgOf(compiled), t, Nonterminal(compiled.grammar.nonterminals)) && Yield(t) == z;
    LhsKnown(compiled, t.production);
    var start := StartItem(compiled, compiled.augmentedProduction, 0);
    StartItemRule(compiled, compiled.augmentedProduction, 0);
    assert Rhs(compiled, start)[0..] == Rhs(compiled, start);
    assert z == z[0..|z|];
    ForestStraddles(cf, x, st, z, start, 0, t.kids);
  }
}
