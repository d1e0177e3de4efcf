/**
 When the recognizer stops on a limit: exactly when one of the counts it keeps goes over, and never before.  A run under
 wider limits is the same run as far as the tighter one goes, and a run whose limits are as wide as the rule table and
 the length of the input ask for is never stopped.
 */
module EarleyLimits {
  import opened Grammars
  import opened Runtime
  import opened Earley
  import opened EarleyChart
  import opened EarleyInvariant
  import opened EarleyTheorems
  import Terminals
  import opened Counting

  // The same recognizer with limits at least as wide.
  ghost predicate Wider(cf: Config, big: Config) {
    && cf.compiled == big.compiled && cf.leoEnabled == big.leoEnabled
    && cf.limits.maxInputBytes <= big.limits.maxInputBytes
    && cf.limits.maxChartColumns <= big.limits.maxChartColumns
    && cf.limits.maxItemsPerColumn <= big.limits.maxItemsPerColumn
    && cf.limits.maxTotalItems <= big.limits.maxTotalItems
    && cf.limits.maxActiveScans <= big.limits.maxActiveScans
    && cf.limits.maxLeoItems <= big.limits.maxLeoItems
  }

  // How much of a resource a state holds while column `c` is being filled.
  function Held(st: State, c: nat, resource: Resource): nat
    requires c < |st.chart|
  {
    match resource
    case ItemsPerColumn => |st.chart[c].items|
    case TotalItems => st.totalItems
    case LeoItems => st.leoItems
    case _ => 0
  }

  predicate Within(cf: Config, st: State, c: nat) {
    c < |st.chart| && |st.chart[c].items| <= cf.limits.maxItemsPerColumn
    && st.totalItems <= cf.limits.maxTotalItems && st.leoItems <= cf.limits.maxLeoItems
  }

  // ---------- One step under two limits ----------

  // The tighter step is the wider one, or it stops on an overrun that the end of the wider one shows.
  ghost predicate Tightened<T>(cf: Config, c: nat, r: Outcome<State, T>, s: Outcome<State, T>) {
    c < |s.state.chart| &&
    (r == s
     || (r.Failed? && Overrun(cf.limits, r.error)
         && (s.Done? ==> r.error.observed <= Held(s.state, c, r.error.resource))))
  }

  // What a step from `st` leaves within the limits, and why it stopped.
  ghost predicate Bounded<T>(cf: Config, st: State, c: nat, r: Outcome<State, T>) {
    && c < |st.chart|
    && (Within(cf, st, c) && r.Done? ==> Within(cf, r.state, c))
    && (Within(cf, st, c) && r.Failed? && r.error.LimitExceeded? ==>
          r.error.resource == ItemsPerColumn ||
          (r.error.resource == TotalItems
           && cf.limits.maxTotalItems < st.totalItems - |st.chart[c].items| + cf.limits.maxItemsPerColumn))
  }

  lemma InsertItemTight(cf: Config, big: Config, st: State, c: nat, item: Item)
    requires Wider(cf, big) && c < |st.chart|
    ensures Tightened(cf, c, InsertItem(cf, st, c, item), InsertItem(big, st, c, item))
    ensures Bounded(cf, st, c, InsertItem(cf, st, c, item))
  {
  }

  lemma InsertAdvancedTight(cf: Config, big: Config, st: State, c: nat, item: Item)
    requires Wider(cf, big) && c < |st.chart|
    ensures Tightened(cf, c, InsertAdvanced(cf, st, c, item), InsertAdvanced(big, st, c, item))
    ensures Bounded(cf, st, c, InsertAdvanced(cf, st, c, item))
  {
    hide InsertItem, Overrun;
    match AdvanceItem(cf.compiled, item)
    case None =>
    case Some(advanced) => InsertItemTight(cf, big, st, c, advanced);
  }

  lemma {:induction false} AdvanceAllTight(cf: Config, big: Config, st: State, c: nat, waiters: seq<Item>)
    requires Wider(cf, big) && c < |st.chart|
    ensures Tightened(cf, c, AdvanceAll(cf, st, c, waiters), AdvanceAll(big, st, c, waiters))
    ensures Bounded(cf, st, c, AdvanceAll(cf, st, c, waiters))
    decreases |waiters|
  {
    hide InsertAdvanced, Overrun;
    if waiters != [] {
      InsertAdvancedTight(cf, big, st, c, waiters[0]);
      var r, s := InsertAdvanced(cf, st, c, waiters[0]), InsertAdvanced(big, st, c, waiters[0]);
      if r.Done? {
        AdvanceAllTight(cf, big, r.state, c, waiters[1..]);
      }
    }
  }

  lemma {:induction false} PredictAllTight(cf: Config, big: Config, st: State, c: nat, starts: seq<nat>)
    requires Wider(cf, big) && c < |st.chart|
    ensures Tightened(cf, c, PredictAll(cf, st, c, starts), PredictAll(big, st, c, starts))
    ensures Bounded(cf, st, c, PredictAll(cf, st, c, starts))
    decreases |starts|
  {
    hide InsertItem, Overrun;
    if starts != [] {
      var item := Item(starts[0], st.chart[c].position);
      InsertItemTight(cf, big, st, c, item);
      var r := InsertItem(cf, st, c, item);
      if r.Done? {
        PredictAllTight(cf, big, r.state, c, starts[1..]);
      }
    }
  }

  lemma PredictTight(cf: Config, big: Config, st: State, c: nat, a: nat, item: Item)
    requires Wider(cf, big) && c < |st.chart|
    ensures Tightened(cf, c, Predict(cf, st, c, a, item), Predict(big, st, c, a, item))
    ensures Bounded(cf, st, c, Predict(cf, st, c, a, item))
  {
    hide InsertAdvanced, PredictAll, Overrun, WaitOnNonterminal;
    var st1 := WaitOnNonterminal(st, c, a, item);
    if a < |cf.compiled.startsByLhs| && a < |cf.compiled.grammar.nullable| {
      var starts := cf.compiled.startsByLhs[a];
      PredictAllTight(cf, big, st1, c, starts);
      var r := PredictAll(cf, st1, c, starts);
      if r.Done? {
        InsertAdvancedTight(cf, big, r.state, c, item);
      }
    }
  }

  lemma CompleteTight(cf: Config, big: Config, st: State, c: nat, item: Item)
    requires Wider(cf, big) && c < |st.chart| && item.dotted < |cf.compiled.dotted|
    ensures Tightened(cf, c, Complete(cf, st, c, item), Complete(big, st, c, item))
    ensures Bounded(cf, st, c, Complete(cf, st, c, item))
  {
    hide InsertItem, AdvanceAll, Overrun;
    var lhs := cf.compiled.dotted[item.dotted].lhs;
    if item.origin < |st.chart| {
      var origin := st.chart[item.origin];
      if lhs in origin.leo {
        InsertItemTight(cf, big, st, c, origin.leo[lhs]);
      }
      AdvanceAllTight(cf, big, st, c, Lookup(origin.waitingNonterminal, lhs));
    }
  }

  lemma ProcessItemTight(cf: Config, big: Config, st: State, c: nat, item: Item, scans: seq<Scan>)
    requires Wider(cf, big) && c < |st.chart|
    ensures Tightened(cf, c, ProcessItem(cf, st, c, item, scans), ProcessItem(big, st, c, item, scans))
    ensures Bounded(cf, st, c, ProcessItem(cf, st, c, item, scans))
  {
    hide Predict, Complete, Overrun, WaitOnTerminal;
    if item.dotted < |cf.compiled.dotted| {
      match cf.compiled.dotted[item.dotted].next
      case Some(Nonterminal(a)) => PredictTight(cf, big, st, c, a, item);
      case Some(Terminal(t)) =>
      case None => CompleteTight(cf, big, st, c, item);
    }
  }

  lemma {:induction false} AgendaTight(cf: Config, big: Config, st: State, c: nat, agenda: nat, scans: seq<Scan>)
    requires Wider(cf, big) && Fits(cf, st, c)
    ensures Fits(big, st, c)
    ensures Tightened(cf, c, Agenda(cf, st, c, agenda, scans), Agenda(big, st, c, agenda, scans))
    ensures Bounded(cf, st, c, Agenda(cf, st, c, agenda, scans))
    decreases cf.limits.maxItemsPerColumn - agenda
  {
    hide ProcessItem, Overrun;
    if agenda < |st.chart[c].items| {
      var item := st.chart[c].items[agenda];
      ProcessItemTight(cf, big, st, c, item, scans);
      var r := ProcessItem(cf, st, c, item, scans);
      if r.Done? {
        AgendaTight(cf, big, r.state, c, agenda + 1, r.value);
      }
    }
  }

  lemma {:induction false} StepScansTight(cf: Config, big: Config, st: State, c: nat, byte: Byte, scans: seq<Scan>,
      continuing: seq<Scan>)
    requires Wider(cf, big) && c < |st.chart|
    ensures Tightened(cf, c, StepScans(cf, st, c, byte, scans, continuing),
                      StepScans(big, st, c, byte, scans, continuing))
    ensures Bounded(cf, st, c, StepScans(cf, st, c, byte, scans, continuing))
    decreases |scans|
  {
    hide AdvanceAll, Overrun, Terminals.Advance, Terminals.IsAccepting, Terminals.IsLive;
    if scans != [] && scans[0].terminal < |cf.compiled.grammar.terminals| {
      var scan := scans[0];
      var terminal := cf.compiled.grammar.terminals[scan.terminal];
      match Terminals.Advance(terminal, scan.cursor, byte)
      case None => StepScansTight(cf, big, st, c, byte, scans[1..], continuing);
      case Some(cursor) =>
        if Terminals.IsAccepting(terminal, cursor) && scan.start >= |st.chart| {
          return;
        }
        var waiters := if Terminals.IsAccepting(terminal, cursor)
          then Lookup(st.chart[scan.start].waitingTerminal, scan.terminal) else [];
        AdvanceAllTight(cf, big, st, c, waiters);
        var r := AdvanceAll(cf, st, c, waiters);
        if r.Done? {
          var kept := if Terminals.IsLive(terminal, cursor) then continuing + [scan.(cursor := cursor)] else continuing;
          StepScansTight(cf, big, r.state, c, byte, scans[1..], kept);
        }
    }
  }

  lemma {:induction false} FinishLeoTight(cf: Config, big: Config, st: State, c: nat, postdot: nat)
    requires Wider(cf, big) && c < |st.chart| && postdot <= |cf.compiled.startsByLhs|
    ensures Tightened(cf, c, FinishLeo(cf, st, c, postdot), FinishLeo(big, st, c, postdot))
    ensures var r := FinishLeo(cf, st, c, postdot);
            && (r.Done? && Within(cf, st, c) ==> Within(cf, r.state, c))
            && (r.Done? ==> r.state.leoItems <= st.leoItems + |cf.compiled.startsByLhs| - postdot)
            && (r.Failed? && r.error.LimitExceeded? ==>
                  r.error.resource == LeoItems
                    && cf.limits.maxLeoItems < st.leoItems + |cf.compiled.startsByLhs| - postdot)
    decreases |cf.compiled.startsByLhs| - postdot
  {
    hide LeoStep, Overrun;
    if postdot < |cf.compiled.startsByLhs| {
      LeoStepTight(cf, big, st, c, postdot);
      var r := LeoStep(cf, st, c, postdot);
      if r.Done? {
        FinishLeoTight(cf, big, r.state, c, postdot + 1);
      }
    }
  }

  lemma LeoStepTight(cf: Config, big: Config, st: State, c: nat, postdot: nat)
    requires Wider(cf, big) && c < |st.chart|
    ensures Tightened(cf, c, LeoStep(cf, st, c, postdot), LeoStep(big, st, c, postdot))
    ensures var r := LeoStep(cf, st, c, postdot);
            && (r.Done? && Within(cf, st, c) ==> Within(cf, r.state, c))
            && (r.Done? ==> r.state.leoItems <= st.leoItems + 1)
            && (r.Failed? && r.error.LimitExceeded? ==>
                  r.error.resource == LeoItems && cf.limits.maxLeoItems < st.leoItems + 1)
  {
  }

  lemma SaturateTight(cf: Config, big: Config, st: State, c: nat)
    requires Wider(cf, big) && Fits(cf, st, c)
    ensures Fits(big, st, c) && Tightened(cf, c, Saturate(cf, st, c), Saturate(big, st, c))
    ensures Sized(cf, st, c, Saturate(cf, st, c))
  {
    hide Agenda, FinishLeo, SortDedup, Overrun;
    AgendaTight(cf, big, st, c, 0, []);
    var r := Agenda(cf, st, c, 0, []);
    if r.Done? {
      FinishLeoTight(cf, big, r.state, c, 0);
    }
  }

  // What filling a whole column leaves within the limits, and why it stopped.
  ghost predicate Sized<T>(cf: Config, st: State, c: nat, r: Outcome<State, T>) {
    && c < |st.chart|
    && (r.Done? ==> r.state.leoItems <= st.leoItems + |cf.compiled.startsByLhs|)
    && (r.Done? ==> c < |r.state.chart|
                    && r.state.totalItems - |r.state.chart[c].items| == st.totalItems - |st.chart[c].items|)
    && (Within(cf, st, c) && r.Done? ==> Within(cf, r.state, c))
    && (Within(cf, st, c) && r.Failed? && r.error.LimitExceeded? ==>
          match r.error.resource
          case ItemsPerColumn => true
          case TotalItems =>
            cf.limits.maxTotalItems < st.totalItems - |st.chart[c].items| + cf.limits.maxItemsPerColumn
          case LeoItems => cf.limits.maxLeoItems < st.leoItems + |cf.compiled.startsByLhs|
          case _ => false)
  }

  // ---------- One byte ----------

  ghost predicate Allowed(cf: Config, st: State) {
    && st.chart != [] && Within(cf, st, |st.chart| - 1)
    && st.bytePosition <= cf.limits.maxInputBytes && st.bytePosition < TWO_TO_THE_32
    && |st.chart| <= cf.limits.maxChartColumns
    && |st.scans| <= cf.limits.maxActiveScans
  }

  // The count behind each limit.
  function Counted(st: State, resource: Resource): nat
    requires st.chart != []
  {
    match resource
    case InputBytes => st.bytePosition
    case ChartColumns => |st.chart|
    case ActiveScans => |st.scans|
    case _ => Held(st, |st.chart| - 1, resource)
  }

  // The tighter step goes through exactly when what the wider one leaves is allowed.
  ghost predicate StepDecided<T>(cf: Config, r: Outcome<State, T>, s: Outcome<State, T>) {
    && (r.Done? ==> r == s && Allowed(cf, r.state))
    && (s.Done? && s.state.chart != [] && r.Failed? ==>
          Overrun(cf.limits, r.error) && r.error.observed <= Counted(s.state, r.error.resource))
  }

  lemma AdvanceByteTight(cf: Config, big: Config, st: State, byte: Byte)
    requires Wider(cf, big) && Allowed(cf, st)
    ensures StepDecided(cf, AdvanceByte(cf, st, byte), AdvanceByte(big, st, byte))
  {
    hide StepScans, Saturate, SortDedup;
    var position, c := st.bytePosition + 1, |st.chart|;
    var st1 := st.(chart := st.chart + [NewColumn(position)], scans := []);
    StepScansTight(cf, big, st1, c, byte, st.scans, []);
    var r := StepScans(cf, st1, c, byte, st.scans, []);
    if r.Done? {
      SaturateTight(cf, big, r.state, c);
    }
    var s := StepScans(big, st1, c, byte, st.scans, []);
    if s.Done? {
      SaturateGrows(big, s.state, c);
    }
  }

  lemma SaturateGrows(cf: Config, st: State, c: nat)
    requires Fits(cf, st, c)
    ensures var r := Saturate(cf, st, c);
            |r.state.chart[c].items| >= |st.chart[c].items| && r.state.totalItems >= st.totalItems
            && r.state.leoItems >= st.leoItems
  {
    hide Agenda, FinishLeo, SortDedup;
  }

  lemma InitialTight(cf: Config, big: Config)
    requires Wider(cf, big)
    ensures StepDecided(cf, Initial(cf), Initial(big))
  {
    hide InsertItem, Saturate;
    var st, c := EmptyState(), 0;
    if cf.compiled.augmentedProduction < |cf.compiled.offsets| {
      var item := Item(cf.compiled.offsets[cf.compiled.augmentedProduction], 0);
      InsertItemTight(cf, big, st, 0, item);
      var r := InsertItem(cf, st, 0, item);
      if r.Done? {
        SaturateTight(cf, big, r.state, 0);
      }
      var s := InsertItem(big, st, 0, item);
      if s.Done? {
        SaturateGrows(big, s.state, 0);
      }
    }
  }

  // ---------- The counts are counts ----------

  function ItemCount(chart: seq<Column>): nat {
    if chart == [] then 0 else ItemCount(chart[..|chart| - 1]) + |chart[|chart| - 1].items|
  }

  function LeoCount(chart: seq<Column>): nat {
    if chart == [] then 0 else LeoCount(chart[..|chart| - 1]) + |chart[|chart| - 1].leo|
  }

  ghost predicate Tallied(st: State) {
    st.totalItems == ItemCount(st.chart) && st.leoItems == LeoCount(st.chart)
  }

  // The walk over the awaited nonterminals counts every entry it makes.
  lemma {:induction false} FinishLeoCounts(cf: Config, st: State, c: nat, postdot: nat)
    requires c < |st.chart| && forall a <- st.chart[c].leo :: a < postdot
    ensures var r := FinishLeo(cf, st, c, postdot);
            r.Done? ==> r.state.leoItems - st.leoItems == |r.state.chart[c].leo| - |st.chart[c].leo|
    decreases |cf.compiled.startsByLhs| - postdot
  {
    hide LeoStep;
    if postdot < |cf.compiled.startsByLhs| {
      LeoStepCounts(cf, st, c, postdot);
      var r := LeoStep(cf, st, c, postdot);
      if r.Done? {
        FinishLeoCounts(cf, r.state, c, postdot + 1);
      }
    }
  }

  lemma LeoStepCounts(cf: Config, st: State, c: nat, postdot: nat)
    requires c < |st.chart| && postdot !in st.chart[c].leo
    ensures var r := LeoStep(cf, st, c, postdot);
            r.Done? ==> && r.state.leoItems - st.leoItems == |r.state.chart[c].leo| - |st.chart[c].leo|
                        && forall a <- r.state.chart[c].leo :: a == postdot || a in st.chart[c].leo
  {
    var before, after := st.chart[c].leo, LeoStep(cf, st, c, postdot).state.chart[c].leo;
    if postdot in after {
      EntryAdded(before, postdot, after[postdot]);
    }
  }

  lemma EntryAdded(leo: map<nat, Item>, a: nat, top: Item)
    requires a !in leo
    ensures |leo[a := top]| == |leo| + 1
  {
    assert leo[a := top].Keys == leo.Keys + {a};
  }

  // Filling a fresh last column counts what it puts there.
  lemma SaturateCounts(cf: Config, st: State, c: nat)
    requires Fits(cf, st, c) && st.chart[c].leo == map[]
    ensures var r := Saturate(cf, st, c);
            r.Done? ==> && r.state.totalItems - st.totalItems == |r.state.chart[c].items| - |st.chart[c].items|
                        && r.state.leoItems - st.leoItems == |r.state.chart[c].leo|
  {
    hide Agenda, FinishLeo, SortDedup;
    var r := Agenda(cf, st, c, 0, []);
    if r.Done? {
      FinishLeoCounts(cf, r.state, c, 0);
    }
  }

  lemma AdvanceByteTallies(cf: Config, st: State, byte: Byte)
    requires Tallied(st)
    ensures var r := AdvanceByte(cf, st, byte);
            r.Done? ==> Tallied(r.state) && |r.state.chart| == |st.chart| + 1
  {
    hide StepScans, Saturate, SortDedup, IsLive;
    var position, c := st.bytePosition + 1, |st.chart|;
    var st1 := st.(chart := st.chart + [NewColumn(position)], scans := []);
    var r := StepScans(cf, st1, c, byte, st.scans, []);
    var end := AdvanceByte(cf, st, byte);
    if end.Done? {
      SaturateCounts(cf, r.state, c);
      assert end.state.chart[..c] == st.chart;
    }
  }

  lemma {:induction false} FeedTallies(cf: Config, x: Word)
    ensures Feed(cf, x).Done? ==> Tallied(Feed(cf, x).state) && |Feed(cf, x).state.chart| == |x| + 1
    decreases |x|
  {
    hide AdvanceByte, Tallied;
    if x == [] {
      InitialTallies(cf);
    } else {
      var front := x[..|x| - 1];
      FeedTallies(cf, front);
      if Feed(cf, front).Done? {
        AdvanceByteTallies(cf, Feed(cf, front).state, x[|x| - 1]);
      }
    }
  }

  lemma InitialTallies(cf: Config)
    ensures Initial(cf).Done? ==> Tallied(Initial(cf).state) && |Initial(cf).state.chart| == 1
  {
    hide InsertItem, Saturate;
    var end := Initial(cf);
    if end.Done? {
      var item := Item(cf.compiled.offsets[cf.compiled.augmentedProduction], 0);
      var r := InsertItem(cf, EmptyState(), 0, item);
      SaturateCounts(cf, r.state, 0);
      assert end.state.chart[..0] == [] && ItemCount([]) == 0 && LeoCount([]) == 0;
    }
  }

  // ---------- Whole runs ----------

  // How much of a resource a state uses, read off the chart and the scans.
  function Used(st: State, resource: Resource): nat {
    match resource
    case InputBytes => st.bytePosition
    case ChartColumns => |st.chart|
    case ItemsPerColumn => if st.chart == [] then 0 else |st.chart[|st.chart| - 1].items|
    case TotalItems => ItemCount(st.chart)
    case ActiveScans => |st.scans|
    case LeoItems => LeoCount(st.chart)
    case _ => 0
  }

  ghost predicate WithinLimits(limits: RuntimeLimits, st: State) {
    st.bytePosition < TWO_TO_THE_32 && forall resource :: Used(st, resource) <= LimitOf(limits, resource)
  }

  lemma AllowedIsWithin(cf: Config, st: State)
    requires Tallied(st) && st.chart != []
    ensures Allowed(cf, st) <==> WithinLimits(cf.limits, st)
    ensures forall resource :: Used(st, resource) == Counted(st, resource)
  {
    forall resource ensures Used(st, resource) == Counted(st, resource) {
    }
    if WithinLimits(cf.limits, st) {
      assert Used(st, InputBytes) <= LimitOf(cf.limits, InputBytes);
      assert Used(st, ChartColumns) <= LimitOf(cf.limits, ChartColumns);
      assert Used(st, ItemsPerColumn) <= LimitOf(cf.limits, ItemsPerColumn);
      assert Used(st, TotalItems) <= LimitOf(cf.limits, TotalItems);
      assert Used(st, ActiveScans) <= LimitOf(cf.limits, ActiveScans);
      assert Used(st, LeoItems) <= LimitOf(cf.limits, LeoItems);
    }
  }

  // The wider run uses, after some prefix, at least what the error of the tighter one reports.
  ghost predicate Shown(big: Config, x: Word, error: RuntimeError, k: nat) {
    k <= |x| && error.LimitExceeded? && Feed(big, x[..k]).Done?
    && error.observed <= Used(Feed(big, x[..k]).state, error.resource)
  }

  // A run under tighter limits is the wider run, or it stops on a limit that the wider run goes over.
  lemma {:induction false} FeedTight(cf: Config, big: Config, x: Word)
    requires Wider(cf, big)
    ensures Feed(cf, x).Done? ==> Feed(cf, x) == Feed(big, x) && WithinLimits(cf.limits, Feed(cf, x).state)
    ensures Feed(cf, x).Failed? && Feed(big, x).Done? ==>
              Overrun(cf.limits, Feed(cf, x).error) && exists k: nat :: Shown(big, x, Feed(cf, x).error, k)
    decreases |x|
  {
    hide AdvanceByte, Tallied, WithinLimits, Initial, Allowed, Used, Counted;
    FeedTallies(big, x);
    var r, s := Feed(cf, x), Feed(big, x);
    if s.Done? {
      AllowedIsWithin(cf, s.state);
      assert x[..|x|] == x;
    }
    if x == [] {
      InitialTight(cf, big);
      assert r.Failed? && s.Done? ==> Shown(big, x, r.error, 0);
    } else {
      var front := x[..|x| - 1];
      FeedTight(cf, big, front);
      var before := Feed(cf, front);
      if before.Done? {
        FeedTallies(cf, front);
        AllowedIsWithin(cf, before.state);
        AdvanceByteTight(cf, big, before.state, x[|x| - 1]);
        assert r.Failed? && s.Done? ==> Shown(big, x, r.error, |x|);
      } else if s.Done? {
        var k: nat :| Shown(big, front, before.error, k);
        assert x[..k] == front[..k];
        assert Shown(big, x, r.error, k);
      }
    }
  }

  // Main result: with a wider run to compare with, the tighter one goes through exactly when the wider one stays within
  // the tighter limits after every prefix, and is then the same run.
  lemma FeedDoneExactly(cf: Config, big: Config, x: Word)
    requires Wider(cf, big) && Feed(big, x).Done?
    ensures Feed(cf, x).Done? <==>
            forall k: nat :: k <= |x| ==> WithinLimits(cf.limits, Feed(big, x[..k]).state)
    ensures Feed(cf, x).Done? ==> Feed(cf, x) == Feed(big, x)
  {
    hide Feed, WithinLimits;
    FeedTight(cf, big, x);
    if Feed(cf, x).Done? {
      forall k: nat | k <= |x| ensures WithinLimits(cf.limits, Feed(big, x[..k]).state) {
        FeedPrefix(cf, x, k);
        FeedTight(cf, big, x[..k]);
      }
    } else {
      var k: nat :| Shown(big, x, Feed(cf, x).error, k);
      NotWithin(cf.limits, Feed(big, x[..k]).state, Feed(cf, x).error);
    }
  }

  lemma NotWithin(limits: RuntimeLimits, st: State, error: RuntimeError)
    requires Overrun(limits, error) && error.observed <= Used(st, error.resource)
    ensures !WithinLimits(limits, st)
  {
    assert error.limit == LimitOf(limits, error.resource) || st.bytePosition >= TWO_TO_THE_32;
  }

  lemma {:induction false} FeedPrefix(cf: Config, x: Word, k: nat)
    requires Feed(cf, x).Done? && k <= |x|
    ensures Feed(cf, x[..k]).Done?
    decreases |x|
  {
    hide AdvanceByte, Initial;
    if k < |x| {
      FeedPrefix(cf, x[..|x| - 1], k);
      assert x[..|x| - 1][..k] == x[..k];
    } else {
      assert x[..k] == x;
    }
  }

  // ---------- Limits that are never reached ----------

  function ScanCode(scan: Scan, m: nat): nat {
    scan.terminal * m + scan.start
  }

  lemma ScanCodes(a: Scan, b: Scan, terminals: nat, m: nat)
    requires a.start < m && b.start < m && a.terminal < terminals
    ensures ScanCode(a, m) < terminals * m
    ensures ScanCode(a, m) == ScanCode(b, m) ==> a.terminal == b.terminal && a.start == b.start
  {
    CodeBelow(a.terminal, a.start, terminals, m);
    if ScanCode(a, m) == ScanCode(b, m) {
      CodeInjective(a.terminal, a.start, b.terminal, b.start, m);
    }
  }

  // Scans that differ in terminal or start: there are at most so many.
  lemma ScanBound(scans: seq<Scan>, terminals: nat, m: nat)
    requires forall i :: 0 <= i < |scans| ==> scans[i].terminal < terminals && scans[i].start < m
    requires forall i, j :: 0 <= i < j < |scans| ==>
               scans[i].terminal != scans[j].terminal || scans[i].start != scans[j].start
    ensures |scans| <= terminals * m
  {
    hide ScanCode;
    var codes := seq(|scans|, i requires 0 <= i < |scans| => ScanCode(scans[i], m));
    forall i, j | 0 <= i < j < |codes| ensures codes[i] != codes[j] {
      ScanCodes(scans[i], scans[j], terminals, m);
    }
    forall i | 0 <= i < |codes| ensures codes[i] < terminals * m {
      ScanCodes(scans[i], scans[i], terminals, m);
    }
    Pigeonhole(codes, terminals * m);
  }

  // The cursor of an active scan is determined by its terminal and its start.
  lemma ActiveCursor(compiled: CompiledEarley, x: Word, chart: seq<Column>, a: Scan, b: Scan)
    requires |chart| == |x| + 1 && ActiveAt(compiled, x, chart, a, |x|) && ActiveAt(compiled, x, chart, b, |x|)
    ensures a.terminal == b.terminal && a.start == b.start ==> a == b
  {
  }

  // At most one active scan per terminal and start.
  lemma ScansSize(cf: Config, x: Word, st: State)
    requires Consumed(cf, x, st) && StrictlySorted(st.scans)
    ensures |st.scans| <= |cf.compiled.grammar.terminals| * (|x| + 1)
  {
    var scans := st.scans;
    ConsumedScans(cf, x, st);
    hide Consumed;
    forall i | 0 <= i < |scans| ensures ActiveAt(cf.compiled, x, st.chart, scans[i], |x|) {
      assert scans[i] in scans;
    }
    forall i, j | 0 <= i < j < |scans|
      ensures scans[i].terminal != scans[j].terminal || scans[i].start != scans[j].start
    {
      ActiveCursor(cf.compiled, x, st.chart, scans[i], scans[j]);
      assert ScanBefore(scans[i], scans[j]);
    }
    ScanBound(scans, |cf.compiled.grammar.terminals|, |x| + 1);
  }

  function WithScans(cf: Config, scans: nat): Config {
    cf.(limits := cf.limits.(maxActiveScans := scans))
  }

  function WithItems(cf: Config, items: nat): Config {
    cf.(limits := cf.limits.(maxItemsPerColumn := items))
  }

  // Why a step stopped, in terms of what was there before it.
  ghost predicate Reason<T>(cf: Config, st: State, columns: nat, error: RuntimeError, wider: Outcome<State, T>) {
    error.LimitExceeded? ==>
      match error.resource
      case InputBytes => columns > cf.limits.maxInputBytes + 1 || columns > TWO_TO_THE_32
      case ChartColumns => columns > cf.limits.maxChartColumns
      case ItemsPerColumn => true
      case TotalItems => cf.limits.maxTotalItems < st.totalItems + cf.limits.maxItemsPerColumn
      case LeoItems => cf.limits.maxLeoItems < st.leoItems + |cf.compiled.startsByLhs|
      case ActiveScans =>
        wider.Done? && |wider.state.scans| == error.observed > cf.limits.maxActiveScans
          && StrictlySorted(wider.state.scans)
      case _ => false
  }

  lemma AdvanceByteStops(cf: Config, st: State, byte: Byte)
    requires Allowed(cf, st) && st.bytePosition + 1 == |st.chart|
    ensures var r := AdvanceByte(cf, st, byte);
            && (r.Failed? && r.error.LimitExceeded? ==>
                  Reason(cf, st, |st.chart| + 1, r.error, AdvanceByte(WithScans(cf, r.error.observed), st, byte)))
            && (r.Done? ==> && |r.state.chart| == |st.chart| + 1
                            && r.state.leoItems <= st.leoItems + |cf.compiled.startsByLhs|
                            && r.state.totalItems == st.totalItems + |r.state.chart[|st.chart|].items|)
  {
    hide StepScans, Saturate, SortDedup, IsLive;
    var position, c := st.bytePosition + 1, |st.chart|;
    var st1 := st.(chart := st.chart + [NewColumn(position)], scans := []);
    var end := AdvanceByte(cf, st, byte);
    var big := if end.Failed? && end.error.LimitExceeded? && end.error.resource == ActiveScans
      then WithScans(cf, end.error.observed) else cf;
    StepScansTight(cf, cf, st1, c, byte, st.scans, []);
    var r := StepScans(cf, st1, c, byte, st.scans, []);
    if r.Done? {
      SaturateTight(cf, cf, r.state, c);
      if big != cf && Wider(cf, big) {
        StepScansTight(cf, big, st1, c, byte, st.scans, []);
        SaturateTight(cf, big, r.state, c);
      }
    }
  }

  // What fits in a column, in a chart, in the active scans and in the Leo tables after `n` bytes.
  ghost function ItemRoom(cf: Config, n: nat): nat {
    |cf.compiled.dotted| * (n + 1)
  }

  ghost function TotalRoom(cf: Config, n: nat): nat {
    |cf.compiled.dotted| * (n + 1) * (n + 1)
  }

  ghost function ScanRoom(cf: Config, n: nat): nat {
    |cf.compiled.grammar.terminals| * (n + 1)
  }

  ghost function LeoRoom(cf: Config, n: nat): nat {
    |cf.compiled.startsByLhs| * (n + 1)
  }

  lemma RoomGrows(cf: Config, n: nat)
    ensures ItemRoom(cf, n) <= ItemRoom(cf, n + 1) && ScanRoom(cf, n) <= ScanRoom(cf, n + 1)
    ensures LeoRoom(cf, n) + |cf.compiled.startsByLhs| == LeoRoom(cf, n + 1)
    ensures TotalRoom(cf, n) + ItemRoom(cf, n + 1) <= TotalRoom(cf, n + 1)
  {
    var d := |cf.compiled.dotted|;
    Distributes(d, n + 1);
    Distributes(|cf.compiled.grammar.terminals|, n + 1);
    Distributes(|cf.compiled.startsByLhs|, n + 1);
    Distributes(d * (n + 2), n + 1);
    assert d * (n + 2) * (n + 1) == d * (n + 1) * (n + 1) + d * (n + 1) by {
      assert d * (n + 2) == d * (n + 1) + d;
      assert (d * (n + 1) + d) * (n + 1) == d * (n + 1) * (n + 1) + d * (n + 1);
    }
  }

  lemma Distributes(a: nat, n: nat)
    ensures a * (n + 1) == a * n + a
  {
  }

  lemma RoomAtStart(cf: Config)
    ensures ItemRoom(cf, 0) == TotalRoom(cf, 0) == |cf.compiled.dotted|
    ensures ScanRoom(cf, 0) == |cf.compiled.grammar.terminals| && LeoRoom(cf, 0) == |cf.compiled.startsByLhs|
  {
  }

  // Room for `n` bytes: as many positions, a column each, the items and scans that fit in a column, and one Leo entry
  // per nonterminal and column.
  ghost predicate Roomy(cf: Config, n: nat) {
    && n < TWO_TO_THE_32
    && n <= cf.limits.maxInputBytes
    && n + 1 <= cf.limits.maxChartColumns
    && ItemRoom(cf, n) <= cf.limits.maxItemsPerColumn
    && TotalRoom(cf, n) <= cf.limits.maxTotalItems
    && ScanRoom(cf, n) <= cf.limits.maxActiveScans
    && LeoRoom(cf, n) <= cf.limits.maxLeoItems
  }

  ghost predicate RoomLeft(cf: Config, x: Word, st: State) {
    && Consumed(cf, x, st) && st.totalItems <= TotalRoom(cf, |x|) && st.leoItems <= LeoRoom(cf, |x|)
  }

  lemma SameConsumed(a: Config, b: Config, x: Word, st: State)
    requires Consumed(a, x, st) && a.compiled == b.compiled && a.leoEnabled == b.leoEnabled
    ensures Consumed(b, x, st)
  {
  }

  lemma LastColumnFits(cf: Config, x: Word, st: State)
    requires Consumed(cf, x, st)
    ensures |st.chart| == |x| + 1 == st.bytePosition + 1 && |st.chart[|x|].items| <= ItemRoom(cf, |x|)
  {
    ColumnSize(cf, x, st, |x|);
  }

  lemma ScansFit(cf: Config, x: Word, st: State)
    requires Consumed(cf, x, st) && StrictlySorted(st.scans)
    ensures |st.scans| <= ScanRoom(cf, |x|)
  {
    ScansSize(cf, x, st);
  }

  // A run that has room for one more byte takes it and has as much room as before.
  lemma RoomyByte(cf: Config, x: Word, st: State, byte: Byte)
    requires RoomLeft(cf, x, st) && Allowed(cf, st) && Roomy(cf, |x| + 1)
    ensures var r := AdvanceByte(cf, st, byte);
            r.Done? && RoomLeft(cf, x + [byte], r.state)
  {
    hide Consumed, AdvanceByte, ItemRoom, TotalRoom, ScanRoom, LeoRoom, StrictlySorted;
    var c, y := |x| + 1, x + [byte];
    var tight := WithItems(cf, ItemRoom(cf, c));
    var r := AdvanceByte(tight, st, byte);
    LastColumnFits(cf, x, st);
    RoomGrows(cf, |x|);
    SameConsumed(cf, tight, x, st);
    AdvanceByteTight(tight, cf, st, byte);
    AdvanceByteConsumes(tight, x, st, byte);
    AdvanceByteStops(tight, st, byte);
    if r.Failed? {
      assert ItemRoom(cf, c) == |cf.compiled.dotted| * (c + 1) by { SameRoom(cf, c); }
      if r.error.resource == ActiveScans {
        var wide := WithScans(tight, r.error.observed);
        SameConsumed(tight, wide, x, st);
        AdvanceByteConsumes(wide, x, st, byte);
        var end := AdvanceByte(wide, st, byte).state;
        SameConsumed(wide, cf, y, end);
        ScansFit(cf, y, end);
      }
      assert false;
    }
    SameConsumed(tight, cf, y, r.state);
    LastColumnFits(cf, y, r.state);
  }

  lemma SameRoom(cf: Config, c: nat)
    ensures ItemRoom(cf, c) == |cf.compiled.dotted| * (c + 1)
  {
  }

  lemma InitialStops(cf: Config)
    ensures var r, st := Initial(cf), EmptyState();
            && (r.Failed? && r.error.LimitExceeded? ==>
                  Reason(cf, st, 1, r.error, Initial(WithScans(cf, r.error.observed))))
            && (r.Done? ==> && |r.state.chart| == 1 && r.state.leoItems <= |cf.compiled.startsByLhs|
                            && r.state.totalItems == |r.state.chart[0].items|)
  {
    hide InsertItem, Saturate;
    var st, end := EmptyState(), Initial(cf);
    var big := if end.Failed? && end.error.LimitExceeded? && end.error.resource == ActiveScans
      then WithScans(cf, end.error.observed) else cf;
    if cf.compiled.augmentedProduction < |cf.compiled.offsets| {
      var item := Item(cf.compiled.offsets[cf.compiled.augmentedProduction], 0);
      InsertItemTight(cf, cf, st, 0, item);
      var r := InsertItem(cf, st, 0, item);
      if r.Done? {
        SaturateTight(cf, cf, r.state, 0);
        if big != cf && Wider(cf, big) {
          InsertItemTight(cf, big, st, 0, item);
          SaturateTight(cf, big, r.state, 0);
        }
      }
    }
  }

  lemma RoomyStart(cf: Config)
    requires WellBuilt(cf.compiled) && Roomy(cf, 0)
    ensures Initial(cf).Done? && RoomLeft(cf, [], Initial(cf).state)
  {
    hide Consumed, Initial, WellBuilt, ItemRoom, TotalRoom, ScanRoom, LeoRoom, StrictlySorted;
    var tight := WithItems(cf, ItemRoom(cf, 0));
    var r := Initial(tight);
    RoomAtStart(cf);
    InitialTight(tight, cf);
    InitialConsumes(tight);
    InitialStops(tight);
    if r.Failed? {
      if r.error.resource == ActiveScans {
        var wide := WithScans(tight, r.error.observed);
        InitialConsumes(wide);
        SameConsumed(wide, cf, [], Initial(wide).state);
        ScansFit(cf, [], Initial(wide).state);
      }
      assert false;
    }
    SameConsumed(tight, cf, [], r.state);
    LastColumnFits(cf, [], r.state);
  }

  lemma RoomyBefore(cf: Config, n: nat)
    requires Roomy(cf, n + 1)
    ensures Roomy(cf, n)
  {
    hide ItemRoom, TotalRoom, ScanRoom, LeoRoom;
    RoomGrows(cf, n);
  }

  // Main result: with room for the bytes of the input no limit is ever met.
  lemma {:induction false} RoomyFeeds(cf: Config, x: Word)
    requires WellBuilt(cf.compiled) && Roomy(cf, |x|)
    ensures Feed(cf, x).Done? && RoomLeft(cf, x, Feed(cf, x).state)
    decreases |x|
  {
    hide WellBuilt, Initial, AdvanceByte, RoomLeft, Roomy, Tallied, Allowed, WithinLimits;
    if x == [] {
      RoomyStart(cf);
    } else {
      var front := x[..|x| - 1];
      RoomyBefore(cf, |front|);
      RoomyFeeds(cf, front);
      FeedTallies(cf, front);
      SameWider(cf);
      FeedTight(cf, cf, front);
      AllowedIsWithin(cf, Feed(cf, front).state);
      RoomyByte(cf, front, Feed(cf, front).state, x[|x| - 1]);
      assert front + [x[|x| - 1]] == x;
    }
  }

  lemma SameWider(cf: Config)
    ensures Wider(cf, cf)
  {
  }

  ghost function Max(a: nat, b: nat): nat {
    if a < b then b else a
  }

  // The same recognizer with room for `n` bytes, whatever its limits.
  ghost function Widened(cf: Config, n: nat): Config {
    var limits := cf.limits;
    cf.(limits := limits.(
      maxInputBytes := Max(limits.maxInputBytes, n),
      maxChartColumns := Max(limits.maxChartColumns, n + 1),
      maxItemsPerColumn := Max(limits.maxItemsPerColumn, ItemRoom(cf, n)),
      maxTotalItems := Max(limits.maxTotalItems, TotalRoom(cf, n)),
      maxActiveScans := Max(limits.maxActiveScans, ScanRoom(cf, n)),
      maxLeoItems := Max(limits.maxLeoItems, LeoRoom(cf, n))))
  }

  // Main result: whatever the limits, the run goes through exactly when the run with room for everything stays within
  // them after every prefix; and when it stops, the error names a limit and a count that run does reach.
  lemma FeedExactly(cf: Config, x: Word)
    requires WellBuilt(cf.compiled) && |x| < TWO_TO_THE_32
    ensures var big := Widened(cf, |x|);
            && (forall k: nat :: k <= |x| ==> Feed(big, x[..k]).Done?)
            && (Feed(cf, x).Done? <==> forall k: nat :: k <= |x| ==> WithinLimits(cf.limits, Feed(big, x[..k]).state))
            && (Feed(cf, x).Done? ==> Feed(cf, x) == Feed(big, x))
            && (Feed(cf, x).Failed? ==>
                  Overrun(cf.limits, Feed(cf, x).error) && exists k: nat :: Shown(big, x, Feed(cf, x).error, k))
  {
    hide WellBuilt, Feed, WithinLimits, RoomLeft;
    var big := Widened(cf, |x|);
    RoomyFeeds(big, x);
    forall k: nat | k <= |x| ensures Feed(big, x[..k]).Done? {
      FeedPrefix(big, x, k);
    }
    FeedDoneExactly(cf, big, x);
    FeedTight(cf, big, x);
  }
}
