/**
 The recognizer's steps fill a chart that is sound and closed, one column per byte.
 */
module EarleyInvariant {
  import opened Grammars
  import opened Terminals
  import opened Runtime
  import opened ResidualGrammars
  import opened Earley
  import opened EarleyChart
  import opened Counting

  // What holds between two bytes after the input `x` has been consumed without an error.
  ghost predicate Consumed(cf: Config, x: Word, st: State) {
    && |st.chart| == |x| + 1
    && st.bytePosition == |x|
    && Saturated(cf.compiled, x, st.chart)
    && ScansExact(cf.compiled, x, st.chart, st.scans, |x|)
    && (!cf.leoEnabled ==> NoLeo(st.chart))
  }

  ghost predicate NoLeo(chart: seq<Column>) {
    forall c :: 0 <= c < |chart| ==> chart[c].leo == map[]
  }

  // Columns before `c` are closed among themselves.
  ghost predicate ClosedBefore(compiled: CompiledEarley, x: Word, chart: seq<Column>, c: nat)
    requires c < |chart| <= |x| + 1
  {
    && (forall k: nat, item :: k < c && item in chart[k].items ==> ItemClosed(compiled, chart, k, item))
    && (forall k: nat, a: nat :: k < c && a in chart[k].leo ==> LeoClosed(compiled, chart, k, a))
    && (forall s: nat, t: nat, k: nat :: s < k < c ==> ScanClosed(compiled, x, chart, s, t, k))
  }

  // Column `c` is the last one and is being filled: everything in it is sound, its Leo table is still empty.
  ghost predicate Filling(compiled: CompiledEarley, x: Word, st: State, c: nat) {
    && |st.chart| == c + 1 == |x| + 1
    && ChartSound(compiled, x, st.chart)
    && ClosedBefore(compiled, x, st.chart, c)
    && st.chart[c].leo == map[]
  }

  // The only errors: a limit was overrun, and the per-column one only when set below the rule count times
  // the number of possible origins.
  ghost predicate Lawful(cf: Config, c: nat, error: RuntimeError) {
    && Overrun(cf.limits, error)
    && (error.resource == ItemsPerColumn ==> cf.limits.maxItemsPerColumn < |cf.compiled.dotted| * (c + 1))
  }

  // Column `c` never holds more than one item per dotted rule and origin.
  lemma ColumnBound(compiled: CompiledEarley, x: Word, items: seq<Item>, c: nat)
    requires Distinct(items) && forall item <- items :: Valid(compiled, x, item, c)
    ensures |items| <= |compiled.dotted| * (c + 1)
  {
    var codes := seq(|items|, i requires 0 <= i < |items| => items[i].dotted * (c + 1) + items[i].origin);
    forall i, j | 0 <= i < j < |codes| ensures codes[i] != codes[j] {
      assert items[i] in items && items[j] in items;
      if codes[i] == codes[j] {
        CodeInjective(items[i].dotted, items[i].origin, items[j].dotted, items[j].origin, c + 1);
      }
    }
    forall i | 0 <= i < |codes| ensures codes[i] < |compiled.dotted| * (c + 1) {
      assert items[i] in items;
      CodeBelow(items[i].dotted, items[i].origin, |compiled.dotted|, c + 1);
    }
    Pigeonhole(codes, |compiled.dotted| * (c + 1));
  }

  // ---------- Growth of the last column ----------

  lemma ClosedBeforeGrows(compiled: CompiledEarley, x: Word, a: seq<Column>, b: seq<Column>, c: nat)
    requires c < |a| == |b| <= |x| + 1 && (forall k :: 0 <= k < c ==> a[k] == b[k])
    requires ClosedBefore(compiled, x, a, c)
    ensures ClosedBefore(compiled, x, b, c)
  {
    forall k: nat, item | k < c && item in b[k].items ensures ItemClosed(compiled, b, k, item) {
      assert ItemClosed(compiled, a, k, item);
    }
    forall k: nat, l: nat | k < c && l in b[k].leo ensures LeoClosed(compiled, b, k, l) {
      assert LeoClosed(compiled, a, k, l);
    }
    forall s: nat, t: nat, k: nat | s < k < c ensures ScanClosed(compiled, x, b, s, t, k) {
      assert ScanClosed(compiled, x, a, s, t, k);
    }
  }

  lemma ItemClosedGrows(compiled: CompiledEarley, a: State, b: State, c: nat, item: Item)
    requires Grew(a, b, c) && ItemClosed(compiled, a.chart, c, item)
    ensures ItemClosed(compiled, b.chart, c, item)
  {
    assert forall i :: i in a.chart[c].items ==> i in b.chart[c].items;
  }

  lemma KeyInjective(a: Item, b: Item)
    requires a.origin < TWO_TO_THE_32 && b.origin < TWO_TO_THE_32 && Key(a) == Key(b)
    ensures a == b
  {
  }

  // Inserting a valid item keeps the column sound and leaves the item in it.
  lemma InsertItemSound(cf: Config, x: Word, st: State, c: nat, item: Item)
    requires Filling(cf.compiled, x, st, c) && Valid(cf.compiled, x, item, c)
    ensures var r := InsertItem(cf, st, c, item);
            r.Failed? ==> Lawful(cf, c, r.error)
    ensures var r := InsertItem(cf, st, c, item);
            r.Done? ==> Filling(cf.compiled, x, r.state, c) && item in r.state.chart[c].items
  {
    var column := st.chart[c];
    assert ColumnSound(cf.compiled, x, column, c);
    var r := InsertItem(cf, st, c, item);
    if Key(item) in column.membership {
      var other :| other in column.items && Key(other) == Key(item);
      KeyInjective(item, other);
    } else {
      OneItemMore(cf.compiled, x, column, c, item);
      hide ColumnSound, Valid;
      if r.Done? {
        ClosedBeforeGrows(cf.compiled, x, st.chart, r.state.chart, c);
      }
    }
  }

  // A column stays sound with one more valid item whose key is new.
  lemma OneItemMore(compiled: CompiledEarley, x: Word, column: Column, c: nat, item: Item)
    requires c <= |x| && ColumnSound(compiled, x, column, c)
    requires Valid(compiled, x, item, c) && Key(item) !in column.membership
    ensures var items := column.items + [item];
            && |items| <= |compiled.dotted| * (c + 1)
            && ColumnSound(compiled, x, column.(membership := column.membership + {Key(item)}, items := items), c)
  {
    var items := column.items + [item];
    assert item !in column.items;
    assert Distinct(items);
    assert forall i :: i in items <==> i in column.items || i == item;
    ColumnBound(compiled, x, items, c);
    hide Valid, Distinct;
    assert column.membership + {Key(item)} == (set i <- items :: Key(i));
  }

  lemma {:induction false} AdvanceAllSound(cf: Config, x: Word, st: State, c: nat, waiters: seq<Item>)
    requires Filling(cf.compiled, x, st, c)
    requires forall w <- waiters ::
               Known(cf.compiled, w) && Rule(cf.compiled, w).next.Some? && Valid(cf.compiled, x, Advanced(w), c)
    ensures var r := AdvanceAll(cf, st, c, waiters);
            r.Failed? ==> Lawful(cf, c, r.error)
    ensures var r := AdvanceAll(cf, st, c, waiters);
            r.Done? ==> Filling(cf.compiled, x, r.state, c)
                        && forall w <- waiters :: Advanced(w) in r.state.chart[c].items
    decreases |waiters|
  {
    hide Filling, Valid;
    if waiters != [] {
      var w := waiters[0];
      assert WellBuilt(cf.compiled) by { ValidBuilt(cf.compiled, x, Advanced(w), c); }
      AdvancedRule(cf.compiled, w);
      InsertItemSound(cf, x, st, c, Advanced(w));
      var r := InsertAdvanced(cf, st, c, w);
      if r.Done? {
        AdvanceAllSound(cf, x, r.state, c, waiters[1..]);
        var end := AdvanceAll(cf, r.state, c, waiters[1..]);
        assert r.state.chart[c].items <= end.state.chart[c].items;
      }
    }
  }

  lemma ValidBuilt(compiled: CompiledEarley, x: Word, item: Item, j: nat)
    requires Valid(compiled, x, item, j)
    ensures WellBuilt(compiled) && Known(compiled, item) && item.origin <= j <= |x|
  {
  }

  lemma {:induction false} PredictAllSound(cf: Config, x: Word, st: State, c: nat, a: nat, starts: seq<nat>)
    requires Filling(cf.compiled, x, st, c) && WellBuilt(cf.compiled) && a < |cf.compiled.startsByLhs|
    requires Predicted(CfgOf(cf.compiled), x, a, c)
    requires forall d <- starts :: d in cf.compiled.startsByLhs[a]
    ensures var r := PredictAll(cf, st, c, starts);
            r.Failed? ==> Lawful(cf, c, r.error)
    ensures var r := PredictAll(cf, st, c, starts);
            r.Done? ==> Filling(cf.compiled, x, r.state, c)
                        && forall d <- starts :: Item(d, c) in r.state.chart[c].items
    decreases |starts|
  {
    hide Filling, WellBuilt;
    if starts != [] {
      var item := Item(starts[0], c);
      PositionFacts(cf.compiled, x, st, c);
      StartValid(cf.compiled, x, a, starts[0], c);
      InsertItemSound(cf, x, st, c, item);
      var r := InsertItem(cf, st, c, item);
      if r.Done? {
        PredictAllSound(cf, x, r.state, c, a, starts[1..]);
        var end := PredictAll(cf, r.state, c, starts[1..]);
        assert r.state.chart[c].items <= end.state.chart[c].items;
      }
    }
  }

  lemma PositionFacts(compiled: CompiledEarley, x: Word, st: State, c: nat)
    requires Filling(compiled, x, st, c)
    ensures |st.chart| == c + 1 == |x| + 1 && st.chart[c].position == c
  {
    assert ColumnSound(compiled, x, st.chart[c], c);
  }

  lemma StartValid(compiled: CompiledEarley, x: Word, a: nat, d: nat, c: nat)
    requires WellBuilt(compiled) && a < |compiled.startsByLhs| && d in compiled.startsByLhs[a] && c <= |x|
    requires Predicted(CfgOf(compiled), x, a, c)
    ensures Valid(compiled, x, Item(d, c), c)
  {
    StartRule(compiled, a, d);
    ItemRule(compiled, Item(d, c));
    ValidStart(compiled, x, Rule(compiled, Item(d, c)).production, c);
  }

  // ---------- One agenda step ----------

  lemma ColumnItem(compiled: CompiledEarley, x: Word, st: State, c: nat, k: nat, item: Item)
    requires Filling(compiled, x, st, c) && k <= c && item in st.chart[k].items
    ensures Valid(compiled, x, item, k)
  {
    assert ColumnSound(compiled, x, st.chart[k], k);
  }

  lemma ColumnWaiter(compiled: CompiledEarley, x: Word, st: State, c: nat, k: nat, a: nat, w: Item)
    requires Filling(compiled, x, st, c) && k <= c
    requires w in Lookup(st.chart[k].waitingNonterminal, a)
    ensures Valid(compiled, x, w, k) && Rule(compiled, w).next == Some(Nonterminal(a))
  {
    assert ColumnSound(compiled, x, st.chart[k], k);
  }

  lemma ColumnLeo(compiled: CompiledEarley, x: Word, st: State, c: nat, k: nat, a: nat)
    requires Filling(compiled, x, st, c) && k <= c && a in st.chart[k].leo
    ensures LeoSound(compiled, x, k, a, st.chart[k].leo[a]) && k < c
  {
    assert ColumnSound(compiled, x, st.chart[k], k);
  }

  // Completing a valid item inserts only valid items, and all of its waiters or its Leo entry.
  lemma CompleteSound(cf: Config, x: Word, st: State, c: nat, item: Item)
    requires Filling(cf.compiled, x, st, c) && Valid(cf.compiled, x, item, c) && IsComplete(cf.compiled, item)
    requires cf.leoEnabled || NoLeo(st.chart)
    ensures var r := Complete(cf, st, c, item);
            r.Failed? ==> Lawful(cf, c, r.error)
    ensures var r := Complete(cf, st, c, item);
            r.Done? ==> Filling(cf.compiled, x, r.state, c)
                        && (Rule(cf.compiled, item).production == cf.compiled.augmentedProduction || item.origin >= c
                            || CompletionDone(r.state.chart, c, Rule(cf.compiled, item).lhs, item.origin))
  {
    hide Filling, WellBuilt;
    PositionFacts(cf.compiled, x, st, c);
    var a := Rule(cf.compiled, item).lhs;
    var k := item.origin;
    var r := Complete(cf, st, c, item);
    if Rule(cf.compiled, item).production != cf.compiled.augmentedProduction {
      ValidComplete(cf.compiled, x, item, c);
      if cf.leoEnabled && a in st.chart[k].leo {
        ColumnLeo(cf.compiled, x, st, c, k, a);
        LeoTopValid(cf.compiled, x, k, a, st.chart[k].leo[a], c);
        InsertItemSound(cf, x, st, c, st.chart[k].leo[a]);
      } else {
        var waiters := Lookup(st.chart[k].waitingNonterminal, a);
        forall w <- waiters
          ensures Known(cf.compiled, w) && Rule(cf.compiled, w).next.Some? && Valid(cf.compiled, x, Advanced(w), c)
        {
          ColumnWaiter(cf.compiled, x, st, c, k, a, w);
          ValidAdvanced(cf.compiled, x, w, k, c);
        }
        AdvanceAllSound(cf, x, st, c, waiters);
      }
    }
  }

  lemma LeoTopValid(compiled: CompiledEarley, x: Word, k: nat, a: nat, top: Item, j: nat)
    requires LeoSound(compiled, x, k, a, top) && k <= j <= |x|
    requires Derives(CfgOf(compiled), [Nonterminal(a)], x[k..j])
    ensures Valid(compiled, x, top, j)
  {
    ItemRule(compiled, top);
    assert x[top.origin..k] + x[k..j] == x[top.origin..j];
    assert Rhs(compiled, top)[..Rule(compiled, top).dot] == Rhs(compiled, top);
  }

  // The scans created so far are the fresh cursors of the terminals awaited so far.
  ghost predicate CreatedExact(compiled: CompiledEarley, column: Column, c: nat, scans: seq<Scan>) {
    forall scan :: scan in scans <==>
      && scan.start == c && scan.terminal in column.waitingTerminal && scan.terminal < |compiled.grammar.terminals|
      && scan.cursor == Start(compiled.grammar.terminals[scan.terminal])
  }

  ghost predicate AgendaDone(compiled: CompiledEarley, st: State, c: nat, agenda: nat)
    requires c < |st.chart|
  {
    agenda <= |st.chart[c].items| &&
    forall n :: 0 <= n < agenda ==> ItemClosed(compiled, st.chart, c, st.chart[c].items[n])
  }

  lemma WaitKeepsFilling(compiled: CompiledEarley, x: Word, a: State, b: State, c: nat)
    requires Filling(compiled, x, a, c) && Grew(a, b, c) && b.chart[c].items == a.chart[c].items
    requires b.chart[c].membership == a.chart[c].membership && WaitersSound(compiled, b.chart[c])
    ensures Filling(compiled, x, b, c)
  {
    ClosedBeforeGrows(compiled, x, a.chart, b.chart, c);
    assert ColumnSound(compiled, x, a.chart[c], c);
    assert ColumnSound(compiled, x, b.chart[c], c);
  }

  lemma ColumnWaiters(compiled: CompiledEarley, x: Word, st: State, c: nat)
    requires Filling(compiled, x, st, c)
    ensures WaitersSound(compiled, st.chart[c])
  {
    assert ColumnSound(compiled, x, st.chart[c], c);
  }

  // A predicted item is closed: it waits, its rules are started, and it has moved over what derives nothing.
  lemma PredictCloses(cf: Config, st: State, st1: State, last: State, c: nat, a: nat, item: Item)
    requires c < |st.chart| && st1 == WaitOnNonterminal(st, c, a, item) && Grew(st1, last, c)
    requires Known(cf.compiled, item) && Rule(cf.compiled, item).next == Some(Nonterminal(a))
    requires a < |cf.compiled.startsByLhs| && a < |cf.compiled.grammar.nullable|
    requires forall d <- cf.compiled.startsByLhs[a] :: Item(d, c) in last.chart[c].items
    requires cf.compiled.grammar.nullable[a] ==> Advanced(item) in last.chart[c].items
    ensures ItemClosed(cf.compiled, last.chart, c, item)
  {
    var waiting := st1.chart[c].waitingNonterminal;
    assert a in waiting && item in waiting[a];
  }

  lemma WaitFills(cf: Config, x: Word, st: State, c: nat, a: nat, item: Item)
    requires Filling(cf.compiled, x, st, c) && item in st.chart[c].items
    requires Valid(cf.compiled, x, item, c) && Rule(cf.compiled, item).next == Some(Nonterminal(a))
    ensures Filling(cf.compiled, x, WaitOnNonterminal(st, c, a, item), c)
  {
    hide Filling, WellBuilt, Valid;
    PositionFacts(cf.compiled, x, st, c);
    ColumnWaiters(cf.compiled, x, st, c);
    ValidBuilt(cf.compiled, x, item, c);
    WaitKeepsFilling(cf.compiled, x, st, WaitOnNonterminal(st, c, a, item), c);
  }

  // An item before a nonterminal that derives nothing moves over it at once.
  lemma NullableMoves(cf: Config, x: Word, st: State, c: nat, a: nat, item: Item)
    requires Filling(cf.compiled, x, st, c) && WellBuilt(cf.compiled)
    requires Valid(cf.compiled, x, item, c) && Rule(cf.compiled, item).next == Some(Nonterminal(a))
    requires a < |cf.compiled.grammar.nullable| && cf.compiled.grammar.nullable[a]
    ensures var r := InsertAdvanced(cf, st, c, item);
            && (r.Failed? ==> Lawful(cf, c, r.error))
            && (r.Done? ==> Filling(cf.compiled, x, r.state, c) && Advanced(item) in r.state.chart[c].items)
  {
    hide Filling, WellBuilt, Valid, Lawful;
    ValidBuilt(cf.compiled, x, item, c);
    AdvancedRule(cf.compiled, item);
    NullableDerives(cf.compiled, x, a, c);
    ValidAdvanced(cf.compiled, x, item, c, c);
    InsertItemSound(cf, x, st, c, Advanced(item));
  }

  lemma PredictSound(cf: Config, x: Word, st: State, c: nat, a: nat, item: Item)
    requires Filling(cf.compiled, x, st, c) && item in st.chart[c].items && WellBuilt(cf.compiled)
    requires Valid(cf.compiled, x, item, c) && Rule(cf.compiled, item).next == Some(Nonterminal(a))
    ensures var r := Predict(cf, st, c, a, item);
            r.Failed? ==> Lawful(cf, c, r.error)
    ensures var r := Predict(cf, st, c, a, item);
            r.Done? ==> Filling(cf.compiled, x, r.state, c) && ItemClosed(cf.compiled, r.state.chart, c, item)
  {
    hide Filling, WellBuilt, Valid, Lawful, ItemClosed, InsertAdvanced, PredictAll, WaitOnNonterminal;
    PositionFacts(cf.compiled, x, st, c);
    var st1 := WaitOnNonterminal(st, c, a, item);
    var r := Predict(cf, st, c, a, item);
    ValidBuilt(cf.compiled, x, item, c);
    WaitFills(cf, x, st, c, a, item);
    ValidPredicts(cf.compiled, x, item, c, a);
    TablesKnown(cf.compiled, item);
    var starts := cf.compiled.startsByLhs[a];
    PredictAllSound(cf, x, st1, c, a, starts);
    var r2 := PredictAll(cf, st1, c, starts);
    if r2.Done? {
      if cf.compiled.grammar.nullable[a] {
        NullableMoves(cf, x, r2.state, c, a, item);
      }
      assert r2.state.chart[c].items <= r.state.chart[c].items;
      if r.Done? {
        PredictCloses(cf, st, st1, r.state, c, a, item);
      }
    }
  }

  // The tables cover every symbol after a dot.
  lemma TablesKnown(compiled: CompiledEarley, item: Item)
    requires WellBuilt(compiled) && Known(compiled, item) && Rule(compiled, item).next.Some?
    ensures match Rule(compiled, item).next.value
            case Nonterminal(a) => a < |compiled.startsByLhs| && a < |compiled.grammar.nullable|
            case Terminal(t) => t < |compiled.grammar.terminals|
  {
    SymbolKnown(compiled, item);
  }

  lemma NullableDerives(compiled: CompiledEarley, x: Word, a: nat, c: nat)
    requires WellBuilt(compiled) && c <= |x|
    requires a < |compiled.grammar.nullable| && compiled.grammar.nullable[a]
    ensures Derives(CfgOf(compiled), [Nonterminal(a)], x[c..c])
  {
    assert x[c..c] == [];
    AugmentedGenerates(compiled.grammar, a, []);
    DerivesNonterminal(CfgOf(compiled), a, []);
  }

  lemma ProcessItemSound(cf: Config, x: Word, st: State, c: nat, item: Item, scans: seq<Scan>)
    requires Filling(cf.compiled, x, st, c) && item in st.chart[c].items
    requires CreatedExact(cf.compiled, st.chart[c], c, scans)
    requires cf.leoEnabled || NoLeo(st.chart)
    ensures var r := ProcessItem(cf, st, c, item, scans);
            r.Failed? ==> Lawful(cf, c, r.error)
    ensures var r := ProcessItem(cf, st, c, item, scans);
            r.Done? ==> Filling(cf.compiled, x, r.state, c) && ItemClosed(cf.compiled, r.state.chart, c, item)
                        && CreatedExact(cf.compiled, r.state.chart[c], c, r.value)
                        && (cf.leoEnabled || NoLeo(r.state.chart))
  {
    hide Filling, WellBuilt, Lawful, Overrun;
    PositionFacts(cf.compiled, x, st, c);
    ColumnItem(cf.compiled, x, st, c, c, item);
    ColumnWaiters(cf.compiled, x, st, c);
    match Rule(cf.compiled, item).next
    case Some(Nonterminal(a)) =>
      PredictSound(cf, x, st, c, a, item);
      PredictKeepsTerminals(cf, st, c, a, item);
    case Some(Terminal(t)) =>
      TablesKnown(cf.compiled, item);
      TerminalSound(cf, x, st, c, t, item, scans);
    case None =>
      CompleteSound(cf, x, st, c, item);
  }

  lemma TerminalSound(cf: Config, x: Word, st: State, c: nat, t: nat, item: Item, scans: seq<Scan>)
    requires Filling(cf.compiled, x, st, c) && item in st.chart[c].items
    requires CreatedExact(cf.compiled, st.chart[c], c, scans)
    requires Known(cf.compiled, item) && Rule(cf.compiled, item).next == Some(Terminal(t))
    requires t < |cf.compiled.grammar.terminals|
    ensures var st1 := WaitOnTerminal(st, c, t, item);
            && Filling(cf.compiled, x, st1, c) && ItemClosed(cf.compiled, st1.chart, c, item)
            && CreatedExact(cf.compiled, st1.chart[c], c, scans + [Scan(t, c, Start(cf.compiled.grammar.terminals[t]))])
  {
    var st1 := WaitOnTerminal(st, c, t, item);
    PositionFacts(cf.compiled, x, st, c);
    ColumnWaiters(cf.compiled, x, st, c);
    WaitKeepsFilling(cf.compiled, x, st, st1, c);
  }

  lemma PredictKeepsTerminals(cf: Config, st: State, c: nat, a: nat, item: Item)
    requires c < |st.chart|
    ensures Predict(cf, st, c, a, item).state.chart[c].waitingTerminal == st.chart[c].waitingTerminal
  {
  }

  lemma AgendaDoneGrows(compiled: CompiledEarley, a: State, b: State, c: nat, agenda: nat)
    requires Grew(a, b, c) && AgendaDone(compiled, a, c, agenda)
    requires agenda < |a.chart[c].items| && ItemClosed(compiled, b.chart, c, a.chart[c].items[agenda])
    ensures AgendaDone(compiled, b, c, agenda + 1)
  {
    forall n | 0 <= n < agenda ensures ItemClosed(compiled, b.chart, c, b.chart[c].items[n]) {
      ItemClosedGrows(compiled, a, b, c, a.chart[c].items[n]);
    }
  }

  lemma {:induction false} AgendaSound(cf: Config, x: Word, st: State, c: nat, agenda: nat, scans: seq<Scan>)
    requires Filling(cf.compiled, x, st, c) && Fits(cf, st, c)
    requires AgendaDone(cf.compiled, st, c, agenda)
    requires CreatedExact(cf.compiled, st.chart[c], c, scans)
    requires cf.leoEnabled || NoLeo(st.chart)
    ensures var r := Agenda(cf, st, c, agenda, scans);
            r.Failed? ==> Lawful(cf, c, r.error)
    ensures var r := Agenda(cf, st, c, agenda, scans);
            r.Done? ==> Filling(cf.compiled, x, r.state, c)
                        && AgendaDone(cf.compiled, r.state, c, |r.state.chart[c].items|)
                        && CreatedExact(cf.compiled, r.state.chart[c], c, r.value)
                        && (cf.leoEnabled || NoLeo(r.state.chart))
    decreases cf.limits.maxItemsPerColumn - agenda
  {
    hide Filling, AgendaDone, CreatedExact, NoLeo, ProcessItem, ItemClosed;
    AgendaBound(cf.compiled, st, c, agenda);
    if agenda < |st.chart[c].items| {
      var item := st.chart[c].items[agenda];
      ProcessItemSound(cf, x, st, c, item, scans);
      var r := ProcessItem(cf, st, c, item, scans);
      if r.Done? {
        AgendaDoneGrows(cf.compiled, st, r.state, c, agenda);
        AgendaSound(cf, x, r.state, c, agenda + 1, r.value);
      }
    }
  }

  lemma AgendaBound(compiled: CompiledEarley, st: State, c: nat, agenda: nat)
    requires c < |st.chart| && AgendaDone(compiled, st, c, agenda)
    ensures agenda <= |st.chart[c].items|
  {
  }

  // ---------- Leo's table ----------

  // All items are processed and the Leo table of column `c` is being written.
  ghost predicate Finishing(compiled: CompiledEarley, x: Word, st: State, c: nat) {
    && |st.chart| == c + 1 == |x| + 1
    && ChartSound(compiled, x, st.chart)
    && ClosedBefore(compiled, x, st.chart, c)
    && AgendaDone(compiled, st, c, |st.chart[c].items|)
    && forall a <- st.chart[c].leo :: LeoClosed(compiled, st.chart, c, a)
  }

  // The waiter's own advanced item is a sound Leo target.
  lemma DirectTopSound(compiled: CompiledEarley, x: Word, c: nat, a: nat, w: Item)
    requires Valid(compiled, x, w, c) && Rule(compiled, w).next == Some(Nonterminal(a))
    requires IsComplete(compiled, Advanced(w))
    ensures LeoSound(compiled, x, c, a, Advanced(w))
  {
    AdvancedRule(compiled, w);
    var g := CfgOf(compiled);
    var rhs := Rhs(compiled, w);
    var dot := Rule(compiled, w).dot;
    ItemRule(compiled, Advanced(w));
    assert rhs[..dot] + [Nonterminal(a)] == rhs;
    forall u: Word | Derives(g, [Nonterminal(a)], u) ensures Derives(g, rhs, x[w.origin..c] + u) {
      DerivesConcat(g, rhs[..dot], x[w.origin..c], [Nonterminal(a)], u);
    }
  }

  // The entry above the waiter is a sound target too.
  lemma ChainedTopSound(compiled: CompiledEarley, x: Word, c: nat, a: nat, up: Item, top: Item)
    requires LeoSound(compiled, x, c, a, up) && up.origin < c
    requires LeoSound(compiled, x, up.origin, Rule(compiled, up).lhs, top)
    ensures LeoSound(compiled, x, c, a, top)
  {
    var g := CfgOf(compiled);
    var h := up.origin;
    var p := Rule(compiled, up).production;
    ItemRule(compiled, up);
    forall u: Word | Derives(g, [Nonterminal(a)], u) ensures Derives(g, Rhs(compiled, top), x[top.origin..c] + u) {
      DerivesProduction(g, p, x[h..c] + u);
      DerivesNonterminal(g, Rule(compiled, up).lhs, x[h..c] + u);
      assert x[top.origin..h] + (x[h..c] + u) == x[top.origin..c] + u;
    }
  }

  lemma FinishingFacts(compiled: CompiledEarley, x: Word, st: State, c: nat)
    requires Finishing(compiled, x, st, c)
    ensures |st.chart| == c + 1 == |x| + 1 && WaitersSound(compiled, st.chart[c])
    ensures WellBuilt(compiled)
    ensures forall a: nat, w :: w in Lookup(st.chart[c].waitingNonterminal, a) ==>
              Valid(compiled, x, w, c) && Rule(compiled, w).next == Some(Nonterminal(a))
    ensures forall k: nat, a: nat :: k < c && a in st.chart[k].leo ==> LeoSound(compiled, x, k, a, st.chart[k].leo[a])
  {
    assert ColumnSound(compiled, x, st.chart[c], c);
    forall k: nat, a: nat | k < c && a in st.chart[k].leo ensures LeoSound(compiled, x, k, a, st.chart[k].leo[a]) {
      assert ColumnSound(compiled, x, st.chart[k], k);
    }
  }

  lemma LeoKeepsSound(compiled: CompiledEarley, x: Word, a: State, b: State, c: nat, postdot: nat, top: Item)
    requires |a.chart| == c + 1 == |x| + 1 && ChartSound(compiled, x, a.chart) && LeoOnly(a, b, c)
    requires b.chart[c].leo == a.chart[c].leo[postdot := top] && LeoSound(compiled, x, c, postdot, top)
    ensures ChartSound(compiled, x, b.chart)
  {
    assert ColumnSound(compiled, x, a.chart[c], c);
    assert ColumnSound(compiled, x, b.chart[c], c);
    forall k | 0 <= k < |b.chart| ensures ColumnSound(compiled, x, b.chart[k], k) {
      assert ColumnSound(compiled, x, a.chart[k], k);
    }
  }

  lemma LeoKeepsAgenda(compiled: CompiledEarley, a: State, b: State, c: nat)
    requires LeoOnly(a, b, c) && AgendaDone(compiled, a, c, |a.chart[c].items|)
    ensures AgendaDone(compiled, b, c, |b.chart[c].items|)
  {
    forall n | 0 <= n < |b.chart[c].items| ensures ItemClosed(compiled, b.chart, c, b.chart[c].items[n]) {
      assert ItemClosed(compiled, a.chart, c, a.chart[c].items[n]);
    }
  }

  lemma LeoKeepsEntry(compiled: CompiledEarley, a: State, b: State, c: nat, l: nat)
    requires LeoOnly(a, b, c) && l in a.chart[c].leo && l in b.chart[c].leo && b.chart[c].leo[l] == a.chart[c].leo[l]
    requires LeoClosed(compiled, a.chart, c, l)
    ensures LeoClosed(compiled, b.chart, c, l)
  {
  }

  lemma LeoEntryKeeps(compiled: CompiledEarley, x: Word, a: State, b: State, c: nat, postdot: nat, top: Item)
    requires Finishing(compiled, x, a, c) && LeoOnly(a, b, c)
    requires b.chart[c].leo == a.chart[c].leo[postdot := top]
    requires LeoSound(compiled, x, c, postdot, top) && LeoClosed(compiled, b.chart, c, postdot)
    ensures Finishing(compiled, x, b, c)
  {
    ClosedBeforeGrows(compiled, x, a.chart, b.chart, c);
    LeoKeepsSound(compiled, x, a, b, c, postdot, top);
    LeoKeepsAgenda(compiled, a, b, c);
    hide ChartSound, AgendaDone, LeoSound, ClosedBefore, LeoClosed, LeoOnly;
    forall l | l in b.chart[c].leo ensures LeoClosed(compiled, b.chart, c, l) {
      if l != postdot {
        LeoKeepsEntry(compiled, a, b, c, l);
      }
    }
  }

  lemma LeoStepSound(cf: Config, x: Word, st: State, c: nat, postdot: nat)
    requires Finishing(cf.compiled, x, st, c)
    ensures var r := LeoStep(cf, st, c, postdot);
            r.Failed? ==> Lawful(cf, c, r.error)
    ensures var r := LeoStep(cf, st, c, postdot);
            r.Done? ==> Finishing(cf.compiled, x, r.state, c)
  {
    hide Finishing, WellBuilt, Valid, WaitersSound;
    FinishingFacts(cf.compiled, x, st, c);
    var r := LeoStep(cf, st, c, postdot);
    var waiters := Lookup(st.chart[c].waitingNonterminal, postdot);
    if |waiters| != 1 {
      return;
    }
    var w := waiters[0];
    assert w in waiters;
    ValidBuilt(cf.compiled, x, w, c);
    AdvancedRule(cf.compiled, w);
    ItemRule(cf.compiled, w);
    if Rule(cf.compiled, w).dot + 1 == |Rhs(cf.compiled, w)| {
      ItemRule(cf.compiled, Advanced(w));
      DirectTopSound(cf.compiled, x, c, postdot, w);
      var up := Advanced(w);
      if up.origin < c && Rule(cf.compiled, up).lhs in st.chart[up.origin].leo {
        ChainedTopSound(cf.compiled, x, c, postdot, up, st.chart[up.origin].leo[Rule(cf.compiled, up).lhs]);
      }
      if r.Done? {
        LeoEntryKeeps(cf.compiled, x, st, r.state, c, postdot, r.state.chart[c].leo[postdot]);
      }
    }
  }

  lemma {:induction false} FinishLeoSound(cf: Config, x: Word, st: State, c: nat, postdot: nat)
    requires Finishing(cf.compiled, x, st, c)
    ensures var r := FinishLeo(cf, st, c, postdot);
            r.Failed? ==> Lawful(cf, c, r.error)
    ensures var r := FinishLeo(cf, st, c, postdot);
            r.Done? ==> Finishing(cf.compiled, x, r.state, c)
    decreases |cf.compiled.startsByLhs| - postdot
  {
    FinishingChart(cf, x, st, c);
    hide *;
    if postdot >= |cf.compiled.startsByLhs| {
      FinishLeoEnds(cf, st, c, postdot);
    } else {
      LeoStepSound(cf, x, st, c, postdot);
      FinishLeoGoesOn(cf, st, c, postdot);
      var r := LeoStep(cf, st, c, postdot);
      if r.Done? {
        FinishLeoSound(cf, x, r.state, c, postdot + 1);
      }
    }
  }

  lemma FinishLeoEnds(cf: Config, st: State, c: nat, postdot: nat)
    requires c < |st.chart| && postdot >= |cf.compiled.startsByLhs|
    ensures FinishLeo(cf, st, c, postdot) == Done(st, ())
  {
    hide LeoStep, LeoOnly;
  }

  lemma FinishLeoGoesOn(cf: Config, st: State, c: nat, postdot: nat)
    requires c < |st.chart| && postdot < |cf.compiled.startsByLhs|
    ensures var r := LeoStep(cf, st, c, postdot);
            && (r.Failed? ==> FinishLeo(cf, st, c, postdot) == Failed(r.state, r.error))
            && (r.Done? ==> c < |r.state.chart|
                            && FinishLeo(cf, st, c, postdot) == FinishLeo(cf, r.state, c, postdot + 1))
  {
    hide LeoStep;
  }


  lemma FinishingChart(cf: Config, x: Word, st: State, c: nat)
    requires Finishing(cf.compiled, x, st, c)
    ensures c < |st.chart|
  {
  }

  lemma SaturateSound(cf: Config, x: Word, st: State, c: nat)
    requires Filling(cf.compiled, x, st, c) && Fits(cf, st, c)
    requires st.chart[c].waitingTerminal == map[] && (cf.leoEnabled || NoLeo(st.chart))
    ensures var r := Saturate(cf, st, c);
            r.Failed? ==> Lawful(cf, c, r.error)
    ensures var r := Saturate(cf, st, c);
            r.Done? ==> Finishing(cf.compiled, x, r.state, c)
                        && CreatedExact(cf.compiled, r.state.chart[c], c, r.value)
                        && st.chart[c].items <= r.state.chart[c].items
                        && (cf.leoEnabled || NoLeo(r.state.chart))
  {
    AgendaSound(cf, x, st, c, 0, []);
    var r := Agenda(cf, st, c, 0, []);
    if r.Done? {
      assert Finishing(cf.compiled, x, r.state, c);
      if cf.leoEnabled {
        FinishLeoSound(cf, x, r.state, c, 0);
      }
    }
  }

  // ---------- One byte ----------

  ghost predicate Stepped(compiled: CompiledEarley, byte: Byte, old_: Scan, new_: Scan) {
    && old_.terminal < |compiled.grammar.terminals|
    && Advance(compiled.grammar.terminals[old_.terminal], old_.cursor, byte) == Some(new_.cursor)
    && new_ == old_.(cursor := new_.cursor)
  }

  // Scan `scan`, alive over x[start..j], accepts with `byte`: its waiters have advanced into column `c`.
  ghost predicate WaitersMoved(compiled: CompiledEarley, byte: Byte, chart: seq<Column>, c: nat, scan: Scan)
    requires c < |chart|
  {
    && scan.terminal < |compiled.grammar.terminals|
    && scan.start < |chart|
    && var t := compiled.grammar.terminals[scan.terminal];
       var next := Advance(t, scan.cursor, byte);
       next.Some? && Terminals.IsAccepting(t, next.value) ==>
         forall w <- Lookup(chart[scan.start].waitingTerminal, scan.terminal) :: Advanced(w) in chart[c].items
  }

  // The scan is active just before the last byte of `x`, which column `c` is for.
  ghost predicate ActiveBefore(compiled: CompiledEarley, x: Word, chart: seq<Column>, scan: Scan, c: nat)
    requires |chart| == c + 1 == |x| + 1 && c > 0
  {
    && scan.start < c
    && scan.terminal in chart[scan.start].waitingTerminal
    && scan.terminal < |compiled.grammar.terminals|
    && var t := compiled.grammar.terminals[scan.terminal];
       Run(t, Start(t), x[scan.start..c - 1]) == Some(scan.cursor)
       && (scan.start < c - 1 ==> Terminals.IsLive(t, scan.cursor))
  }

  lemma ScanWaiter(compiled: CompiledEarley, x: Word, st: State, c: nat, s: nat, t: nat, w: Item)
    requires Filling(compiled, x, st, c) && s <= c && w in Lookup(st.chart[s].waitingTerminal, t)
    ensures Valid(compiled, x, w, s) && Rule(compiled, w).next == Some(Terminal(t))
  {
    assert ColumnSound(compiled, x, st.chart[s], s);
  }

  lemma ScannedDerives(compiled: CompiledEarley, x: Word, s: nat, c: nat, t: nat)
    requires WellBuilt(compiled) && s <= c <= |x| && t < |compiled.grammar.terminals|
    requires Matches(compiled.grammar.terminals[t], x[s..c])
    ensures Derives(CfgOf(compiled), [Terminal(t)], x[s..c])
  {
    DerivesTerminal(CfgOf(compiled), t, x[s..c]);
  }

  lemma RunLast(t: CompiledTerminal, x: Word, s: nat, c: nat)
    requires s < c <= |x|
    ensures Run(t, Start(t), x[s..c]) ==
            (match Run(t, Start(t), x[s..c - 1]) case None => None case Some(m) => Advance(t, m, x[c - 1]))
  {
    RunOneMore(t, Start(t), x[s..c - 1], x[c - 1]);
    assert x[s..c - 1] + [x[c - 1]] == x[s..c];
  }

  // One scan: the waiters of an accepting cursor are valid one symbol further.
  lemma ScanMoves(cf: Config, x: Word, st: State, c: nat, scan: Scan)
    requires Filling(cf.compiled, x, st, c) && c > 0 && ActiveBefore(cf.compiled, x, st.chart, scan, c)
    requires var t := cf.compiled.grammar.terminals[scan.terminal];
             var next := Advance(t, scan.cursor, x[c - 1]);
             next.Some? && Terminals.IsAccepting(t, next.value)
    ensures var waiters := Lookup(st.chart[scan.start].waitingTerminal, scan.terminal);
            var r := AdvanceAll(cf, st, c, waiters);
            (r.Failed? ==> Lawful(cf, c, r.error))
              && (r.Done? ==>
              Filling(cf.compiled, x, r.state, c) && forall w <- waiters :: Advanced(w) in r.state.chart[c].items)
  {
    var t := cf.compiled.grammar.terminals[scan.terminal];
    RunLast(t, x, scan.start, c);
    ScannedDerives(cf.compiled, x, scan.start, c, scan.terminal);
    var waiters := Lookup(st.chart[scan.start].waitingTerminal, scan.terminal);
    forall w <- waiters
      ensures Known(cf.compiled, w) && Rule(cf.compiled, w).next.Some? && Valid(cf.compiled, x, Advanced(w), c)
    {
      ScanWaiter(cf.compiled, x, st, c, scan.start, scan.terminal, w);
      ValidAdvanced(cf.compiled, x, w, scan.start, c);
    }
    AdvanceAllSound(cf, x, st, c, waiters);
  }

  // How the first scan is stepped: past its waiters, if there are any to move, and on to the rest.
  lemma StepScansFirst(cf: Config, st: State, c: nat, byte: Byte, scans: seq<Scan>, continuing: seq<Scan>)
    requires c < |st.chart| && scans != []
    requires scans[0].terminal < |cf.compiled.grammar.terminals| && scans[0].start < |st.chart|
    ensures var scan, rest := scans[0], scans[1..];
            var t := cf.compiled.grammar.terminals[scan.terminal];
            var r := StepScans(cf, st, c, byte, scans, continuing);
            match Advance(t, scan.cursor, byte)
            case None => r == StepScans(cf, st, c, byte, rest, continuing)
            case Some(cursor) =>
              var accepting := Terminals.IsAccepting(t, cursor);
              var waiters := if accepting then Lookup(st.chart[scan.start].waitingTerminal, scan.terminal) else [];
              var kept := if Terminals.IsLive(t, cursor) then continuing + [scan.(cursor := cursor)] else continuing;
              match AdvanceAll(cf, st, c, waiters)
              case Failed(_, error) => r.Failed? && r.error == error
              case Done(next, _) => r == StepScans(cf, next, c, byte, rest, kept)
  {
    hide Advance, Terminals.IsAccepting, Terminals.IsLive, AdvanceAll, Lookup, Inserted, Fits;
  }

  lemma StillMoved(compiled: CompiledEarley, byte: Byte, a: State, b: State, c: nat, scan: Scan)
    requires Inserted(a, b, c) && WaitersMoved(compiled, byte, a.chart, c, scan)
    ensures WaitersMoved(compiled, byte, b.chart, c, scan)
  {
  }

  // The first scan: the columns stay filled, and its waiters have moved on.
  lemma FirstMoves(cf: Config, x: Word, st: State, c: nat, scan: Scan, cursor: Cursor)
    requires Filling(cf.compiled, x, st, c) && c > 0 && ActiveBefore(cf.compiled, x, st.chart, scan, c)
    requires Advance(cf.compiled.grammar.terminals[scan.terminal], scan.cursor, x[c - 1]) == Some(cursor)
    ensures var accepting := Terminals.IsAccepting(cf.compiled.grammar.terminals[scan.terminal], cursor);
            var waiters := if accepting then Lookup(st.chart[scan.start].waitingTerminal, scan.terminal) else [];
            var r := AdvanceAll(cf, st, c, waiters);
            && (r.Failed? ==> Lawful(cf, c, r.error))
            && (r.Done? ==> Filling(cf.compiled, x, r.state, c)
                            && WaitersMoved(cf.compiled, x[c - 1], r.state.chart, c, scan))
  {
    hide Filling, Lawful, Advance, Terminals.IsAccepting;
    if Terminals.IsAccepting(cf.compiled.grammar.terminals[scan.terminal], cursor) {
      ScanMoves(cf, x, st, c, scan);
    }
  }

  lemma BeforeShape(compiled: CompiledEarley, x: Word, chart: seq<Column>, scan: Scan, c: nat)
    requires |chart| == c + 1 == |x| + 1 && c > 0 && ActiveBefore(compiled, x, chart, scan, c)
    ensures scan.terminal < |compiled.grammar.terminals| && scan.start < |chart|
  {
  }

  // Every scan in turn: its waiters have moved on, and the columns stay filled.
  lemma {:induction false} StepScansFill(cf: Config, x: Word, st: State, c: nat, scans: seq<Scan>,
      continuing: seq<Scan>)
    requires Filling(cf.compiled, x, st, c) && c > 0
    requires forall scan <- scans :: ActiveBefore(cf.compiled, x, st.chart, scan, c)
    ensures var r := StepScans(cf, st, c, x[c - 1], scans, continuing);
            r.Failed? ==> Lawful(cf, c, r.error)
    ensures var r := StepScans(cf, st, c, x[c - 1], scans, continuing);
            r.Done? ==>
              && Filling(cf.compiled, x, r.state, c)
              && (forall scan <- scans :: WaitersMoved(cf.compiled, x[c - 1], r.state.chart, c, scan))
    decreases |scans|
  {
    if scans != [] {
      FillingShape(cf.compiled, x, st, c);
      var scan, rest, byte := scans[0], scans[1..], x[c - 1];
      var r := StepScans(cf, st, c, byte, scans, continuing);
      assert forall s :: s in scans <==> s == scan || s in rest;
      BeforeShape(cf.compiled, x, st.chart, scan, c);
      StepScansFirst(cf, st, c, byte, scans, continuing);
      var t := cf.compiled.grammar.terminals[scan.terminal];
      hide Filling, Lawful, ActiveBefore, WaitersMoved, Advance, Terminals.IsAccepting, Terminals.IsLive, Lookup,
        StepScans, AdvanceAll;
      match Advance(t, scan.cursor, byte)
      case None =>
        assert WaitersMoved(cf.compiled, byte, r.state.chart, c, scan) by {
          NothingMoved(cf.compiled, byte, r.state.chart, c, scan);
        }
        StepScansFill(cf, x, st, c, rest, continuing);
      case Some(cursor) =>
        FirstMoves(cf, x, st, c, scan, cursor);
        var accepting := Terminals.IsAccepting(t, cursor);
        var waiters := if accepting then Lookup(st.chart[scan.start].waitingTerminal, scan.terminal) else [];
        var a := AdvanceAll(cf, st, c, waiters);
        if a.Done? {
          var kept := if Terminals.IsLive(t, cursor) then continuing + [scan.(cursor := cursor)] else continuing;
          StepsKeepActive(cf.compiled, x, st, a.state, c, rest);
          StepScansFill(cf, x, a.state, c, rest, kept);
          StillMoved(cf.compiled, byte, a.state, r.state, c, scan);
        }
    }
  }

  lemma NothingMoved(compiled: CompiledEarley, byte: Byte, chart: seq<Column>, c: nat, scan: Scan)
    requires c < |chart| && scan.terminal < |compiled.grammar.terminals| && scan.start < |chart|
    requires Advance(compiled.grammar.terminals[scan.terminal], scan.cursor, byte).None?
    ensures WaitersMoved(compiled, byte, chart, c, scan)
  {
  }

  ghost predicate StepsAlive(compiled: CompiledEarley, byte: Byte, old_: Scan, new_: Scan) {
    Stepped(compiled, byte, old_, new_) && Terminals.IsLive(compiled.grammar.terminals[old_.terminal], new_.cursor)
  }

  ghost predicate SomeStepsAlive(compiled: CompiledEarley, byte: Byte, scans: seq<Scan>, next: Scan) {
    exists old_ <- scans :: StepsAlive(compiled, byte, old_, next)
  }

  // Keeping what the first scan stepped to, if it is live, and then the rest.
  lemma KeptMore(compiled: CompiledEarley, byte: Byte, continuing: seq<Scan>, kept: seq<Scan>, scan: Scan,
      rest: seq<Scan>, stepped: Scan, next: Scan)
    requires Stepped(compiled, byte, scan, stepped)
    requires kept == if Terminals.IsLive(compiled.grammar.terminals[scan.terminal], stepped.cursor)
                     then continuing + [stepped] else continuing
    ensures next in kept || SomeStepsAlive(compiled, byte, rest, next) <==>
            next in continuing || SomeStepsAlive(compiled, byte, [scan] + rest, next)
  {
    hide Advance, Terminals.IsLive;
    assert StepsAlive(compiled, byte, scan, next) <==>
           next == stepped && Terminals.IsLive(compiled.grammar.terminals[scan.terminal], stepped.cursor);
    assert forall s :: s in [scan] + rest <==> s == scan || s in rest;
    hide StepsAlive;
    if SomeStepsAlive(compiled, byte, [scan] + rest, next) {
      var one :| one in [scan] + rest && StepsAlive(compiled, byte, one, next);
    }
  }

  // What goes on are the scans that stepped to a live cursor.
  lemma {:induction false} StepScansKept(cf: Config, st: State, c: nat, byte: Byte, scans: seq<Scan>,
      continuing: seq<Scan>)
    requires c < |st.chart|
    ensures var r := StepScans(cf, st, c, byte, scans, continuing);
            r.Done? ==>
              forall scan :: scan in r.value <==>
                scan in continuing || SomeStepsAlive(cf.compiled, byte, scans, scan)
    decreases |scans|
  {
    if scans != [] && scans[0].terminal < |cf.compiled.grammar.terminals| {
      hide Advance, Terminals.IsAccepting, Terminals.IsLive, AdvanceAll;
      var scan, rest := scans[0], scans[1..];
      var t := cf.compiled.grammar.terminals[scan.terminal];
      assert scans == [scan] + rest && forall s :: s in scans <==> s == scan || s in rest;
      match Advance(t, scan.cursor, byte)
      case None =>
        StepScansKept(cf, st, c, byte, rest, continuing);
      case Some(cursor) =>
        var stepped := scan.(cursor := cursor);
        var kept := if Terminals.IsLive(t, cursor) then continuing + [stepped] else continuing;
        if !Terminals.IsAccepting(t, cursor) || scan.start < |st.chart| {
          var accepting := Terminals.IsAccepting(t, cursor);
          var waiters := if accepting then Lookup(st.chart[scan.start].waitingTerminal, scan.terminal) else [];
          var a := AdvanceAll(cf, st, c, waiters);
          if a.Done? {
            StepScansKept(cf, a.state, c, byte, rest, kept);
            assert StepScans(cf, st, c, byte, scans, continuing) == StepScans(cf, a.state, c, byte, rest, kept);
            forall next ensures next in kept || SomeStepsAlive(cf.compiled, byte, rest, next) <==>
                                next in continuing || SomeStepsAlive(cf.compiled, byte, scans, next)
            {
              KeptMore(cf.compiled, byte, continuing, kept, scan, rest, stepped, next);
            }
          } else {
            assert StepScans(cf, st, c, byte, scans, continuing).Failed?;
          }
        }
    }
  }

  lemma StepScansSound(cf: Config, x: Word, st: State, c: nat, scans: seq<Scan>, continuing: seq<Scan>)
    requires Filling(cf.compiled, x, st, c) && c > 0
    requires forall scan <- scans :: ActiveBefore(cf.compiled, x, st.chart, scan, c)
    ensures var r := StepScans(cf, st, c, x[c - 1], scans, continuing);
            r.Failed? ==> Lawful(cf, c, r.error)
    ensures var r := StepScans(cf, st, c, x[c - 1], scans, continuing);
            r.Done? ==>
              && Filling(cf.compiled, x, r.state, c)
              && (forall scan <- scans :: WaitersMoved(cf.compiled, x[c - 1], r.state.chart, c, scan))
              && (forall scan :: scan in r.value <==>
                    scan in continuing || SomeStepsAlive(cf.compiled, x[c - 1], scans, scan))
  {
    FillingShape(cf.compiled, x, st, c);
    hide *;
    StepScansFill(cf, x, st, c, scans, continuing);
    StepScansKept(cf, st, c, x[c - 1], scans, continuing);
  }

  lemma FillingShape(compiled: CompiledEarley, x: Word, st: State, c: nat)
    requires Filling(compiled, x, st, c)
    ensures c < |st.chart| == |x| + 1
  {
  }

  lemma StepsKeepActive(compiled: CompiledEarley, x: Word, a: State, b: State, c: nat, scans: seq<Scan>)
    requires Inserted(a, b, c) && |a.chart| == c + 1 == |x| + 1 && c > 0
    requires forall scan <- scans :: ActiveBefore(compiled, x, a.chart, scan, c)
    ensures forall scan <- scans :: ActiveBefore(compiled, x, b.chart, scan, c)
  {
    forall scan <- scans ensures ActiveBefore(compiled, x, b.chart, scan, c) {
      assert ActiveBefore(compiled, x, a.chart, scan, c);
    }
  }

  // ---------- From byte to byte ----------

  // Appending a fresh column for one more byte.
  lemma NewColumnFilling(cf: Config, x: Word, byte: Byte, st: State, st1: State)
    requires Consumed(cf, x, st) && |x| + 2 <= TWO_TO_THE_32
    requires st1.chart == st.chart + [NewColumn(|x| + 1)]
    ensures Filling(cf.compiled, x + [byte], st1, |x| + 1)
    ensures !cf.leoEnabled ==> NoLeo(st1.chart)
  {
    var y := x + [byte];
    var c := |x| + 1;
    forall k | 0 <= k < |st1.chart| ensures ColumnSound(cf.compiled, y, st1.chart[k], k) {
      if k < c {
        assert ColumnSound(cf.compiled, x, st.chart[k], k);
        ColumnSoundExtends(cf.compiled, x, [byte], st.chart[k], k);
      }
    }
    PrefixClosed(cf.compiled, x, y, st.chart, st1.chart, c);
  }

  lemma PrefixClosed(compiled: CompiledEarley, x: Word, y: Word, a: seq<Column>, b: seq<Column>, c: nat)
    requires ChartClosed(compiled, x, a) && |a| == c == |x| + 1 && c < |b| == |y| + 1
    requires a == b[..c] && x == y[..|x|]
    ensures ClosedBefore(compiled, y, b, c)
  {
    assert forall k :: 0 <= k < c ==> a[k] == b[k];
    forall k: nat, item | k < c && item in b[k].items ensures ItemClosed(compiled, b, k, item) {
      assert ItemClosed(compiled, a, k, item);
    }
    forall k: nat, l: nat | k < c && l in b[k].leo ensures LeoClosed(compiled, b, k, l) {
      assert LeoClosed(compiled, a, k, l);
    }
    forall s: nat, t: nat, k: nat | s < k < c ensures ScanClosed(compiled, y, b, s, t, k) {
      assert ScanClosed(compiled, x, a, s, t, k);
      assert y[s..k] == x[s..k];
    }
  }

  // The scan loop has visited every terminal that can end with the last byte.
  lemma ScansCloseColumn(compiled: CompiledEarley, x: Word, byte: Byte, old_: seq<Column>, chart: seq<Column>,
      scans: seq<Scan>, s: nat, t: nat, c: nat)
    requires WellBuilt(compiled) && c == |x| + 1 == |old_| && |chart| == c + 1 && chart[..c] == old_
    requires ScansExact(compiled, x, old_, scans, |x|) && s < c
    requires forall scan <- scans :: WaitersMoved(compiled, byte, chart, c, scan)
    ensures ScanClosed(compiled, x + [byte], chart, s, t, c)
  {
    var y := x + [byte];
    assert chart[s] == old_[s];
    if t < |compiled.grammar.terminals| && Matches(compiled.grammar.terminals[t], y[s..c])
       && t in chart[s].waitingTerminal {
      var terminal := compiled.grammar.terminals[t];
      assert terminal in compiled.grammar.terminals && WellFormedTerminal(terminal);
      RunLast(terminal, y, s, c);
      assert y[s..c - 1] == x[s..];
      var cursor := Run(terminal, Start(terminal), x[s..]).value;
      assert x[s..|x|] == x[s..];
      var scan := Scan(t, s, cursor);
      assert Run(terminal, cursor, [byte]) == Advance(terminal, cursor, byte);
      ExtensibleMeansLive(terminal, cursor, [byte]);
      assert ActiveAt(compiled, x, old_, scan, |x|);
      assert WaitersMoved(compiled, byte, chart, c, scan);
    }
  }

  // The kept and the created cursors are together exactly the active ones.
  lemma NewScansExact(compiled: CompiledEarley, x: Word, byte: Byte, old_: seq<Column>, chart: seq<Column>,
      scans: seq<Scan>, scan: Scan, c: nat)
    requires WellBuilt(compiled) && c == |x| + 1 == |old_| && |chart| == c + 1 && chart[..c] == old_
    requires ScansExact(compiled, x, old_, scans, |x|) && scan.start < c
    ensures (exists was <- scans :: Stepped(compiled, byte, was, scan)
               && Terminals.IsLive(compiled.grammar.terminals[was.terminal], scan.cursor))
            <==> ActiveAt(compiled, x + [byte], chart, scan, c)
  {
    var y := x + [byte];
    var s := scan.start;
    assert chart[s] == old_[s];
    if scan.terminal < |compiled.grammar.terminals| {
      var terminal := compiled.grammar.terminals[scan.terminal];
      assert terminal in compiled.grammar.terminals && WellFormedTerminal(terminal);
      RunLast(terminal, y, s, c);
      assert y[s..c - 1] == x[s..|x|];
      if ActiveAt(compiled, y, chart, scan, c) {
        var cursor := Run(terminal, Start(terminal), x[s..|x|]).value;
        var was := Scan(scan.terminal, s, cursor);
        var more := LiveMeansExtensible(terminal, scan.cursor);
        assert Run(terminal, cursor, [byte] + more) == Run(terminal, scan.cursor, more);
        ExtensibleMeansLive(terminal, cursor, [byte] + more);
        assert ActiveAt(compiled, x, old_, was, |x|);
        assert Stepped(compiled, byte, was, scan);
      }
      if exists was <- scans :: Stepped(compiled, byte, was, scan)
           && Terminals.IsLive(compiled.grammar.terminals[was.terminal], scan.cursor) {
        var was :| was in scans && Stepped(compiled, byte, was, scan)
                   && Terminals.IsLive(compiled.grammar.terminals[was.terminal], scan.cursor);
        assert ActiveAt(compiled, x, old_, was, |x|);
      }
    }
  }

  // A finished column closes the chart.
  lemma FinishedCloses(compiled: CompiledEarley, x: Word, st: State, c: nat)
    requires Finishing(compiled, x, st, c) && WellBuilt(compiled)
    requires StartItem(compiled, compiled.augmentedProduction, 0) in st.chart[0].items
    requires forall s: nat, t: nat :: s < c ==> ScanClosed(compiled, x, st.chart, s, t, c)
    ensures Saturated(compiled, x, st.chart)
  {
    hide ItemClosed, LeoClosed, ScanClosed, WellBuilt;
    forall k: nat, item | k < |st.chart| && item in st.chart[k].items ensures ItemClosed(compiled, st.chart, k, item) {
      if k == c {
        var n :| 0 <= n < |st.chart[c].items| && st.chart[c].items[n] == item;
        assert ItemClosed(compiled, st.chart, c, st.chart[c].items[n]);
      }
    }
    forall k: nat, a: nat | k < |st.chart| && a in st.chart[k].leo ensures LeoClosed(compiled, st.chart, k, a) {
    }
    forall s: nat, t: nat, k: nat | s < k < |st.chart| ensures ScanClosed(compiled, x, st.chart, s, t, k) {
    }
  }

  lemma ActiveHere(compiled: CompiledEarley, x: Word, chart: seq<Column>, scan: Scan, c: nat)
    requires |chart| == c + 1 == |x| + 1 && scan.start == c
    ensures ActiveAt(compiled, x, chart, scan, c) <==>
            scan.terminal in chart[c].waitingTerminal && scan.terminal < |compiled.grammar.terminals|
            && scan.cursor == Start(compiled.grammar.terminals[scan.terminal])
  {
    assert x[c..c] == [];
  }

  lemma ConsumedFacts(cf: Config, x: Word, st: State)
    requires Consumed(cf, x, st)
    ensures WellBuilt(cf.compiled) && StartItem(cf.compiled, cf.compiled.augmentedProduction, 0) in st.chart[0].items
    ensures forall scan <- st.scans :: ActiveAt(cf.compiled, x, st.chart, scan, |x|)
  {
  }

  // One successful byte: the chart stays exact and every earlier column is untouched.
  lemma AdvanceByteConsumes(cf: Config, x: Word, st: State, byte: Byte)
    requires Consumed(cf, x, st)
    ensures var r := AdvanceByte(cf, st, byte);
            r.Failed? ==> Lawful(cf, |x| + 1, r.error)
    ensures var r := AdvanceByte(cf, st, byte);
            r.Done? ==> Consumed(cf, x + [byte], r.state) && st.chart == r.state.chart[..|st.chart|]
  {
    hide Consumed, Filling, Finishing, Saturated, WellBuilt, ActiveAt, ScansExact, StepScans, Saturate;
    var r := AdvanceByte(cf, st, byte);
    var y := x + [byte];
    var c := |x| + 1;
    ConsumedShape(cf, x, st);
    if c > cf.limits.maxInputBytes || c + 1 > cf.limits.maxChartColumns || c >= TWO_TO_THE_32 {
      return;
    }
    ConsumedFacts(cf, x, st);
    var st1 := st.(chart := st.chart + [NewColumn(c)], scans := []);
    NewColumnFilling(cf, x, byte, st, st1);
    forall scan <- st.scans ensures ActiveBefore(cf.compiled, y, st1.chart, scan, c) {
      ActiveMoves(cf.compiled, x, byte, st.chart, st1.chart, scan, c);
    }
    assert y[c - 1] == byte;
    StepScansSound(cf, y, st1, c, st.scans, []);
    var r2 := StepScans(cf, st1, c, byte, st.scans, []);
    if r2.Failed? {
      return;
    }
    SaturateSound(cf, y, r2.state, c);
    var r3 := Saturate(cf, r2.state, c);
    if r.Done? {
      assert r.state.chart == r3.state.chart;
      forall scan <- st.scans ensures WaitersMoved(cf.compiled, byte, r3.state.chart, c, scan) {
        MovedGrows(cf.compiled, byte, r2.state.chart, r3.state.chart, c, scan);
      }
      assert r3.state.chart[..c] == st.chart;
      ConsumedScans(cf, x, st);
      forall s: nat, t: nat | s < c ensures ScanClosed(cf.compiled, y, r3.state.chart, s, t, c) {
        ScansCloseColumn(cf.compiled, x, byte, st.chart, r3.state.chart, st.scans, s, t, c);
      }
      FinishedCloses(cf.compiled, y, r3.state, c);
      forall scan ensures scan in r.state.scans <==> ActiveAt(cf.compiled, y, r3.state.chart, scan, c) {
        AllScansExact(cf, x, byte, st, r3.state.chart, r2.value, r3.value, scan, c);
      }
      ConsumedFrom(cf, y, r.state);
    }
  }

  // Kept and created scans together are the active ones.
  lemma AllScansExact(cf: Config, x: Word, byte: Byte, st: State, chart: seq<Column>, kept: seq<Scan>,
      created: seq<Scan>, scan: Scan, c: nat)
    requires WellBuilt(cf.compiled) && c == |x| + 1 == |st.chart| && |chart| == c + 1 && chart[..c] == st.chart
    requires ScansExact(cf.compiled, x, st.chart, st.scans, |x|)
    requires forall s :: s in kept <==>
               exists old_ <- st.scans :: Stepped(cf.compiled, byte, old_, s)
                 && Terminals.IsLive(cf.compiled.grammar.terminals[old_.terminal], s.cursor)
    requires CreatedExact(cf.compiled, chart[c], c, created)
    ensures scan in SortDedup(kept + created) <==> ActiveAt(cf.compiled, x + [byte], chart, scan, c)
  {
    assert scan in SortDedup(kept + created) <==> scan in kept || scan in created;
    if scan.start < c {
      NewScansExact(cf.compiled, x, byte, st.chart, chart, st.scans, scan, c);
    } else if scan.start == c {
      ActiveHere(cf.compiled, x + [byte], chart, scan, c);
      OldScansStartBefore(cf.compiled, x, byte, st, scan, c);
    } else {
      FarScan(cf.compiled, x, byte, st, chart, created, scan, c);
    }
  }

  lemma ConsumedShape(cf: Config, x: Word, st: State)
    requires Consumed(cf, x, st)
    ensures |st.chart| == |x| + 1 && st.bytePosition == |x| && (!cf.leoEnabled ==> NoLeo(st.chart))
  {
  }

  lemma ConsumedScans(cf: Config, x: Word, st: State)
    requires Consumed(cf, x, st)
    ensures |st.chart| == |x| + 1 && ScansExact(cf.compiled, x, st.chart, st.scans, |x|)
  {
  }

  lemma ConsumedFrom(cf: Config, x: Word, st: State)
    requires |st.chart| == |x| + 1 && st.bytePosition == |x| && (!cf.leoEnabled ==> NoLeo(st.chart))
    requires Saturated(cf.compiled, x, st.chart)
    requires forall scan :: scan in st.scans <==> ActiveAt(cf.compiled, x, st.chart, scan, |x|)
    ensures Consumed(cf, x, st)
  {
  }

  lemma ActiveMoves(compiled: CompiledEarley, x: Word, byte: Byte, a: seq<Column>, b: seq<Column>, scan: Scan, c: nat)
    requires c == |x| + 1 == |a| && |b| == c + 1 && b[..c] == a
    requires ActiveAt(compiled, x, a, scan, |x|)
    ensures ActiveBefore(compiled, x + [byte], b, scan, c)
  {
    assert b[scan.start] == a[scan.start];
    assert (x + [byte])[scan.start..c - 1] == x[scan.start..|x|];
  }

  lemma MovedGrows(compiled: CompiledEarley, byte: Byte, a: seq<Column>, b: seq<Column>, c: nat, scan: Scan)
    requires c < |a| == |b| && (forall k :: 0 <= k < c ==> a[k] == b[k]) && a[c].items <= b[c].items
    requires WaitersMoved(compiled, byte, a, c, scan) && scan.start < c
    ensures WaitersMoved(compiled, byte, b, c, scan)
  {
    assert forall i :: i in a[c].items ==> i in b[c].items;
  }

  lemma OldScansStartBefore(compiled: CompiledEarley, x: Word, byte: Byte, st: State, scan: Scan, c: nat)
    requires c == |x| + 1 == |st.chart|
    requires forall s <- st.scans :: ActiveAt(compiled, x, st.chart, s, |x|)
    requires scan.start >= c
    ensures !exists was <- st.scans :: Stepped(compiled, byte, was, scan)
  {
  }

  lemma FarScan(compiled: CompiledEarley, x: Word, byte: Byte, st: State, chart: seq<Column>, created: seq<Scan>,
      scan: Scan, c: nat)
    requires c == |x| + 1 == |st.chart| && |chart| == c + 1
    requires forall s <- st.scans :: ActiveAt(compiled, x, st.chart, s, |x|)
    requires CreatedExact(compiled, chart[c], c, created) && scan.start > c
    ensures !(exists was <- st.scans :: Stepped(compiled, byte, was, scan))
    ensures scan !in created && !ActiveAt(compiled, x + [byte], chart, scan, c)
  {
  }

  // Starting: the initial column is exact for the empty input.
  lemma InitialConsumes(cf: Config)
    requires WellBuilt(cf.compiled)
    ensures var r := Initial(cf);
            r.Failed? ==> Lawful(cf, 0, r.error)
    ensures var r := Initial(cf);
            r.Done? ==> Consumed(cf, [], r.state)
  {
    hide Filling, Finishing, Saturated, ActiveAt, Saturate;
    var r := Initial(cf);
    if 1 > cf.limits.maxChartColumns {
      return;
    }
    var st := EmptyState();
    var p := cf.compiled.augmentedProduction;
    var start := StartItem(cf.compiled, p, 0);
    EmptyFilling(cf.compiled);
    assert SpineFor(CfgOf(cf.compiled), Root, [], cf.compiled.productions[p].lhs, 0);
    ValidStart(cf.compiled, [], p, 0);
    InsertItemSound(cf, [], st, 0, start);
    var r1 := InsertItem(cf, st, 0, start);
    if r1.Failed? {
      return;
    }
    SaturateSound(cf, [], r1.state, 0);
    var r2 := Saturate(cf, r1.state, 0);
    if r.Done? {
      FinishedCloses(cf.compiled, [], r2.state, 0);
      forall scan ensures scan in r2.value <==> ActiveAt(cf.compiled, [], r2.state.chart, scan, 0) {
        if scan.start == 0 {
          ActiveHere(cf.compiled, [], r2.state.chart, scan, 0);
        } else {
          InactiveFar(cf.compiled, [], r2.state.chart, scan, 0);
        }
      }
      ConsumedFrom(cf, [], r.state);
    }
  }

  lemma InactiveFar(compiled: CompiledEarley, x: Word, chart: seq<Column>, scan: Scan, c: nat)
    requires |chart| == c + 1 == |x| + 1 && scan.start > c
    ensures !ActiveAt(compiled, x, chart, scan, c)
  {
  }

  lemma EmptyFilling(compiled: CompiledEarley)
    requires WellBuilt(compiled)
    ensures Filling(compiled, [], EmptyState(), 0)
  {
    var st := EmptyState();
    assert ColumnSound(compiled, [], st.chart[0], 0);
  }
}
