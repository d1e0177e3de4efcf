/**
 The Earley recognizer as it runs: a rule table built once, and an object whose methods update the chart,
 the active scans and the counters in place.  Each method is proved equal to the corresponding step of
 `Earley`, so everything proved there about states holds for the object.
 */
module EarleyRecognizers {
  import opened Grammars
  import opened Terminals
  import opened Runtime
  import opened ResidualGrammars
  import opened CompileErrors
  import opened Earley
  import opened EarleyChart

  // ---------- Building the rule table ----------

  function RuleCount(ps: seq<Production>): nat {
    if ps == [] then 0 else RuleCount(ps[..|ps| - 1]) + |ps[|ps| - 1].rhs| + 1
  }

  lemma {:induction false} RuleCountMonotone(ps: seq<Production>, k: nat)
    requires k <= |ps|
    ensures k <= RuleCount(ps[..k]) <= RuleCount(ps)
    decreases |ps|
  {
    if k < |ps| {
      RuleCountMonotone(ps[..|ps| - 1], k);
      assert ps[..|ps| - 1][..k] == ps[..k];
    } else {
      assert ps[..k] == ps;
      if k > 0 {
        RuleCountMonotone(ps[..k - 1], k - 1);
        assert ps[..k - 1][..k - 1] == ps[..k - 1];
      }
    }
  }

  lemma RuleCountNext(ps: seq<Production>, p: nat)
    requires p < |ps|
    ensures RuleCount(ps[..p + 1]) == RuleCount(ps[..p]) + |ps[p].rhs| + 1 <= RuleCount(ps)
  {
    assert ps[..p + 1][..p] == ps[..p];
    RuleCountMonotone(ps, p + 1);
  }

  // The dotted rule `d` places `d - offset` symbols into production `p`.
  function RuleFor(ps: seq<Production>, p: nat, offset: nat, d: nat): DottedRule
    requires p < |ps| && offset <= d
  {
    var dot := d - offset;
    DottedRule(p, dot,
               if dot < |ps[p].rhs| then Some(ps[p].rhs[dot]) else None,
               if dot < |ps[p].rhs| then Some(d + 1) else None,
               ps[p].lhs)
  }

  // The first `p` productions have been laid out.
  ghost predicate LaidOut(ps: seq<Production>, p: nat, dotted: seq<DottedRule>, offsets: seq<nat>) {
    && p == |offsets| <= |ps|
    && (forall d :: 0 <= d < |dotted| ==>
          && dotted[d].production < p
          && offsets[dotted[d].production] <= d <= offsets[dotted[d].production] + |ps[dotted[d].production].rhs|
          && dotted[d] == RuleFor(ps, dotted[d].production, offsets[dotted[d].production], d))
    && (forall q :: 0 <= q < p ==> offsets[q] + |ps[q].rhs| < |dotted|)
    && (forall q, d :: 0 <= q < p && offsets[q] <= d <= offsets[q] + |ps[q].rhs| ==> dotted[d].production == q)
  }

  ghost predicate StartsExact(starts: seq<seq<nat>>, dotted: seq<DottedRule>, upto: nat)
    requires upto <= |dotted|
  {
    forall a: nat, d: nat {:trigger d in starts[a]} :: a < |starts| ==>
      (d in starts[a] <==> d < upto && dotted[d].dot == 0 && dotted[d].lhs == a)
  }

  function Layout(ps: seq<Production>, p: nat, offset: nat): seq<DottedRule>
    requires p < |ps|
  {
    seq(|ps[p].rhs| + 1, i requires 0 <= i => RuleFor(ps, p, offset, offset + i))
  }

  lemma LayProduction(ps: seq<Production>, p: nat, dotted: seq<DottedRule>, offsets: seq<nat>)
    requires p < |ps| && LaidOut(ps, p, dotted, offsets)
    ensures LaidOut(ps, p + 1, dotted + Layout(ps, p, |dotted|), offsets + [|dotted|])
  {
    var all := dotted + Layout(ps, p, |dotted|);
    forall d | |dotted| <= d < |all| ensures all[d] == RuleFor(ps, p, |dotted|, d) {
      assert all[d] == Layout(ps, p, |dotted|)[d - |dotted|];
    }
  }

  lemma LayStarts(ps: seq<Production>, p: nat, dotted: seq<DottedRule>, starts: seq<seq<nat>>)
    requires p < |ps| && ps[p].lhs < |starts| && StartsExact(starts, dotted, |dotted|)
    ensures var all := dotted + Layout(ps, p, |dotted|);
            StartsExact(starts[ps[p].lhs := starts[ps[p].lhs] + [|dotted|]], all, |all|)
  {
    var all := dotted + Layout(ps, p, |dotted|);
    var lhs := ps[p].lhs;
    var next := starts[lhs := starts[lhs] + [|dotted|]];
    forall a: nat, d: nat | a < |next|
      ensures d in next[a] <==> d < |all| && all[d].dot == 0 && all[d].lhs == a
    {
      assert d in starts[a] <==> d < |dotted| && dotted[d].dot == 0 && dotted[d].lhs == a;
      assert d in next[a] <==> d in starts[a] || (a == lhs && d == |dotted|) by {
        assert next[a] == if a == lhs then starts[a] + [|dotted|] else starts[a];
      }
      if d < |dotted| {
        assert all[d] == dotted[d];
      } else if d < |all| {
        assert all[d] == Layout(ps, p, |dotted|)[d - |dotted|];
        assert all[d] == RuleFor(ps, p, |dotted|, d);
      }
    }
    assert StartsExact(next, all, |all|);
  }

  lemma LayoutBuilt(g: ResidualGrammar, dotted: seq<DottedRule>, offsets: seq<nat>, starts: seq<seq<nat>>)
    requires WellFormed(g) && LaidOut(AugmentedProductions(g), |AugmentedProductions(g)|, dotted, offsets)
    requires |starts| == g.nonterminals + 1 && StartsExact(starts, dotted, |dotted|) && |dotted| <= TWO_TO_THE_32
    ensures WellBuilt(CompiledEarley(g, AugmentedProductions(g), dotted, offsets, starts,
                                     |g.productions|, offsets[|g.productions|] + 1))
  {
    var compiled := CompiledEarley(g, AugmentedProductions(g), dotted, offsets, starts,
                                   |g.productions|, offsets[|g.productions|] + 1);
    hide WellFormed;
    forall d: nat | d < |compiled.dotted| ensures RuleExact(compiled, d) {
      assert dotted[d] == RuleFor(AugmentedProductions(g), dotted[d].production, offsets[dotted[d].production], d);
    }
    forall q: nat | q < |compiled.productions| ensures OffsetExact(compiled, q) {
      forall d | offsets[q] <= d <= offsets[q] + |compiled.productions[q].rhs|
        ensures dotted[d].production == q && dotted[d].dot == d - offsets[q]
      {
        assert dotted[d] == RuleFor(AugmentedProductions(g), dotted[d].production, offsets[dotted[d].production], d);
      }
    }
    forall b: nat, d: nat | b < |compiled.startsByLhs|
      ensures d in compiled.startsByLhs[b] <==>
              d < |compiled.dotted| && compiled.dotted[d].dot == 0 && compiled.dotted[d].lhs == b
    {
      assert d in starts[b] <==> d < |dotted| && dotted[d].dot == 0 && dotted[d].lhs == b;
    }
  }

  lemma LayoutSize(ps: seq<Production>, p: nat, offset: nat)
    requires p < |ps|
    ensures |Layout(ps, p, offset)| == |ps[p].rhs| + 1
  {
  }

  lemma NothingLaidOut(g: ResidualGrammar)
    ensures |AugmentedProductions(g)| == |g.productions| + 1 && RuleCount([]) == 0
    ensures LaidOut(AugmentedProductions(g), 0, [], [])
    ensures StartsExact(seq(g.nonterminals + 1, _ => []), [], 0)
  {
  }

  lemma ProductionKnown(g: ResidualGrammar, p: nat)
    requires WellFormed(g) && p < |AugmentedProductions(g)|
    ensures AugmentedProductions(g)[p].lhs <= g.nonterminals
  {
    assert p < |g.productions| ==> g.productions[p] in g.productions;
  }

  method LayDots(ps: seq<Production>, p: nat, dotted: seq<DottedRule>) returns (all: seq<DottedRule>)
    requires p < |ps|
    ensures all == dotted + Layout(ps, p, |dotted|)
  {
    var rhs := ps[p].rhs;
    var offset := |dotted|;
    all := dotted;
    for dot := 0 to |rhs| + 1
      invariant all == dotted + Layout(ps, p, offset)[..dot]
    {
      all := all + [RuleFor(ps, p, offset, offset + dot)];
    }
  }

  method Build(g: ResidualGrammar, limits: CompileLimits) returns (r: Result<CompiledEarley>)
    requires WellFormed(g)
    ensures r.Ok? ==> WellBuilt(r.value) && r.value.grammar == g
    ensures r.Err? ==>
              && r.error.ResourceLimitExceeded? && r.error.stage == EarleyPreparation
              && r.error.observed > r.error.limit
              && (r.error.limit == limits.maxLrItems || r.error.limit == TWO_TO_THE_32 - 1)
    ensures r.Ok? <==> g.nonterminals < TWO_TO_THE_32
                       && RuleCount(AugmentedProductions(g)) <= limits.maxLrItems
                       && RuleCount(AugmentedProductions(g)) <= TWO_TO_THE_32
  {
    hide LaidOut, StartsExact, WellBuilt, WellFormed, RuleCount, Layout, AugmentedProductions;
    if g.nonterminals >= TWO_TO_THE_32 {
      return Err(ResourceLimitExceeded(EarleyPreparation, g.nonterminals, TWO_TO_THE_32 - 1));
    }
    var productions := AugmentedProductions(g);
    var dotted: seq<DottedRule> := [];
    var offsets: seq<nat> := [];
    var starts: seq<seq<nat>> := seq(g.nonterminals + 1, _ => []);
    var p := 0;
    NothingLaidOut(g);
    while p < |productions|
      invariant p <= |productions| == |g.productions| + 1 && |offsets| == p
      invariant LaidOut(productions, p, dotted, offsets)
      invariant |dotted| == RuleCount(productions[..p])
      invariant |dotted| <= limits.maxLrItems && |dotted| <= TWO_TO_THE_32
      invariant |starts| == g.nonterminals + 1 && StartsExact(starts, dotted, |dotted|)
    {
      var rhs := productions[p].rhs;
      RuleCountNext(productions, p);
      if |dotted| + |rhs| + 1 > limits.maxLrItems {
        return Err(ResourceLimitExceeded(EarleyPreparation, |dotted| + |rhs| + 1, limits.maxLrItems));
      }
      var offset := |dotted|;
      if offset + |rhs| >= TWO_TO_THE_32 {
        return Err(ResourceLimitExceeded(EarleyPreparation, offset + |rhs|, TWO_TO_THE_32 - 1));
      }
      var lhs := productions[p].lhs;
      ProductionKnown(g, p);
      LayStarts(productions, p, dotted, starts);
      LayProduction(productions, p, dotted, offsets);
      LayoutSize(productions, p, offset);
      starts := starts[lhs := starts[lhs] + [offset]];
      dotted := LayDots(productions, p, dotted);
      offsets := offsets + [offset];
      p := p + 1;
    }
    assert productions[..p] == productions;
    var augmented := |g.productions|;
    LayoutBuilt(g, dotted, offsets, starts);
    r := Ok(CompiledEarley(g, productions, dotted, offsets, starts, augmented, offsets[augmented] + 1));
  }

  // ---------- The recognizer object ----------

  class EarleyRecognizer {
    const compiled: CompiledEarley
    const limits: RuntimeLimits
    const leoEnabled: bool
    const generation: nat
    var chart: seq<Column>
    var activeScans: seq<Scan>
    var bytePosition: nat
    var totalItems: nat
    var leoItems: nat

    function Settings(): Config {
      Config(compiled, limits, leoEnabled)
    }

    function Abs(): State
      reads this
    {
      State(chart, activeScans, bytePosition, totalItems, leoItems)
    }

    // The object is in the state `r` ends in, and the reported error is the one of `r`.
    ghost predicate Ran<T>(r: Outcome<State, T>, error: Option<RuntimeError>)
      reads this
    {
      Abs() == r.state && error == if r.Failed? then Some(r.error) else None
    }

    constructor (compiled: CompiledEarley, limits: RuntimeLimits, leoEnabled: bool, generation: nat)
      ensures this.compiled == compiled && this.limits == limits && this.leoEnabled == leoEnabled
      ensures this.generation == generation && Abs() == EmptyState()
    {
      this.compiled := compiled;
      this.limits := limits;
      this.leoEnabled := leoEnabled;
      this.generation := generation;
      chart := [NewColumn(0)];
      activeScans := [];
      bytePosition := 0;
      totalItems := 0;
      leoItems := 0;
    }

    // Seed and saturate the first column of a fresh recognizer.
    method Start() returns (error: Option<RuntimeError>)
      requires Abs() == EmptyState()
      modifies this
      ensures Ran(Initial(Settings()), error)
    {
      if 1 > limits.maxChartColumns {
        return Some(LimitExceeded(ChartColumns, 1, limits.maxChartColumns));
      }
      if compiled.augmentedProduction >= |compiled.offsets| {
        return Some(InternalInvariant);
      }
      error := InsertItem(0, Item(compiled.offsets[compiled.augmentedProduction], 0));
      if error.Some? {
        return;
      }
      var scans: seq<Scan>;
      scans, error := Saturate(0);
      if error.Some? {
        return;
      }
      if |scans| > limits.maxActiveScans {
        return Some(LimitExceeded(ActiveScans, |scans|, limits.maxActiveScans));
      }
      activeScans := scans;
    }

    method InsertItem(c: nat, item: Item) returns (error: Option<RuntimeError>)
      requires c < |chart|
      modifies this
      ensures Ran(Earley.InsertItem(Settings(), old(Abs()), c, item), error)
    {
      if Key(item) in chart[c].membership {
        return None;
      }
      chart := chart[c := chart[c].(membership := chart[c].membership + {Key(item)})];
      var items := |chart[c].items| + 1;
      if items > limits.maxItemsPerColumn {
        return Some(LimitExceeded(ItemsPerColumn, items, limits.maxItemsPerColumn));
      }
      var total := totalItems + 1;
      if total > limits.maxTotalItems {
        return Some(LimitExceeded(TotalItems, total, limits.maxTotalItems));
      }
      chart := chart[c := chart[c].(items := chart[c].items + [item])];
      totalItems := total;
      return None;
    }

    method InsertAdvanced(c: nat, item: Item) returns (error: Option<RuntimeError>)
      requires c < |chart|
      modifies this
      ensures Ran(Earley.InsertAdvanced(Settings(), old(Abs()), c, item), error)
    {
      match AdvanceItem(compiled, item)
      case None => error := Some(InternalInvariant);
      case Some(advanced) => error := InsertItem(c, advanced);
    }

    method AdvanceAll(c: nat, waiters: seq<Item>) returns (error: Option<RuntimeError>)
      requires c < |chart|
      modifies this
      ensures Ran(Earley.AdvanceAll(Settings(), old(Abs()), c, waiters), error)
    {
      var i := 0;
      error := None;
      while i < |waiters|
        invariant 0 <= i <= |waiters| && c < |chart| && error == None
        invariant Earley.AdvanceAll(Settings(), Abs(), c, waiters[i..])
               == Earley.AdvanceAll(Settings(), old(Abs()), c, waiters)
      {
        assert waiters[i..][1..] == waiters[i + 1..];
        error := InsertAdvanced(c, waiters[i]);
        if error.Some? {
          return;
        }
        i := i + 1;
      }
    }

    method PredictAll(c: nat, starts: seq<nat>) returns (error: Option<RuntimeError>)
      requires c < |chart|
      modifies this
      ensures Ran(Earley.PredictAll(Settings(), old(Abs()), c, starts), error)
    {
      var i := 0;
      error := None;
      while i < |starts|
        invariant 0 <= i <= |starts| && c < |chart| && error == None
        invariant Earley.PredictAll(Settings(), Abs(), c, starts[i..])
               == Earley.PredictAll(Settings(), old(Abs()), c, starts)
      {
        assert starts[i..][1..] == starts[i + 1..];
        error := InsertItem(c, Item(starts[i], chart[c].position));
        if error.Some? {
          return;
        }
        i := i + 1;
      }
    }

    method Complete(c: nat, item: Item) returns (error: Option<RuntimeError>)
      requires c < |chart| && item.dotted < |compiled.dotted|
      modifies this
      ensures Ran(Earley.Complete(Settings(), old(Abs()), c, item), error)
    {
      var rule := compiled.dotted[item.dotted];
      if rule.production == compiled.augmentedProduction {
        return None;
      }
      if item.origin >= |chart| {
        return Some(InternalInvariant);
      }
      if leoEnabled && rule.lhs in chart[item.origin].leo {
        error := InsertItem(c, chart[item.origin].leo[rule.lhs]);
        return;
      }
      error := AdvanceAll(c, Lookup(chart[item.origin].waitingNonterminal, rule.lhs));
    }

    method ProcessItem(c: nat, item: Item, scans: seq<Scan>) returns (created: seq<Scan>, error: Option<RuntimeError>)
      requires c < |chart|
      modifies this
      ensures var r := Earley.ProcessItem(Settings(), old(Abs()), c, item, scans);
              Ran(r, error) && (r.Done? ==> created == r.value)
    {
      created := scans;
      if item.dotted >= |compiled.dotted| {
        return created, Some(InternalInvariant);
      }
      match compiled.dotted[item.dotted].next
      case Some(Nonterminal(a)) =>
        var waiting := Lookup(chart[c].waitingNonterminal, a) + [item];
        chart := chart[c := chart[c].(waitingNonterminal := chart[c].waitingNonterminal[a := waiting])];
        if a >= |compiled.startsByLhs| || a >= |compiled.grammar.nullable| {
          return created, Some(InternalInvariant);
        }
        error := PredictAll(c, compiled.startsByLhs[a]);
        if error.None? && compiled.grammar.nullable[a] {
          error := InsertAdvanced(c, item);
        }
      case Some(Terminal(t)) =>
        var waiting := Lookup(chart[c].waitingTerminal, t) + [item];
        chart := chart[c := chart[c].(waitingTerminal := chart[c].waitingTerminal[t := waiting])];
        if t >= |compiled.grammar.terminals| {
          return created, Some(InternalInvariant);
        }
        created := created + [Scan(t, chart[c].position, Terminals.Start(compiled.grammar.terminals[t]))];
        error := None;
      case None =>
        error := Complete(c, item);
    }

    method Saturate(c: nat) returns (scans: seq<Scan>, error: Option<RuntimeError>)
      requires Fits(Settings(), Abs(), c)
      modifies this
      ensures var r := Earley.Saturate(Settings(), old(Abs()), c);
              Ran(r, error) && (r.Done? ==> scans == r.value)
    {
      hide Earley.ProcessItem, Earley.FinishLeo, Earley.SortDedup, Earley.Inserted, Earley.LeoOnly;
      var agenda := 0;
      scans := [];
      while agenda < |chart[c].items|
        invariant Fits(Settings(), Abs(), c)
        invariant Agenda(Settings(), Abs(), c, agenda, scans) == Agenda(Settings(), old(Abs()), c, 0, [])
        decreases limits.maxItemsPerColumn - agenda
      {
        scans, error := ProcessItem(c, chart[c].items[agenda], scans);
        if error.Some? {
          return;
        }
        agenda := agenda + 1;
      }
      scans := SortDedup(scans);
      error := None;
      if leoEnabled {
        error := FinishLeoColumn(c);
      }
    }

    method FinishLeoColumn(c: nat) returns (error: Option<RuntimeError>)
      requires c < |chart|
      modifies this
      ensures Ran(FinishLeo(Settings(), old(Abs()), c, 0), error)
    {
      error := None;
      var postdot := 0;
      while postdot < |compiled.startsByLhs|
        invariant c < |chart| && error == None
        invariant FinishLeo(Settings(), Abs(), c, postdot) == FinishLeo(Settings(), old(Abs()), c, 0)
      {
        error := LeoEntry(c, postdot);
        if error.Some? {
          return;
        }
        postdot := postdot + 1;
      }
    }

    method LeoEntry(c: nat, postdot: nat) returns (error: Option<RuntimeError>)
      requires c < |chart|
      modifies this
      ensures Ran(LeoStep(Settings(), old(Abs()), c, postdot), error)
    {
      var waiters := Lookup(chart[c].waitingNonterminal, postdot);
      if |waiters| != 1 {
        return None;
      }
      var waiter := waiters[0];
      if waiter.dotted >= |compiled.dotted|
         || compiled.dotted[waiter.dotted].production >= |compiled.productions| {
        return Some(InternalInvariant);
      }
      var rule := compiled.dotted[waiter.dotted];
      if rule.dot + 1 != |compiled.productions[rule.production].rhs| {
        return None;
      }
      var advance := AdvanceItem(compiled, waiter);
      if advance.None? || advance.value.dotted >= |compiled.dotted| {
        return Some(InternalInvariant);
      }
      var target := advance.value;
      var lhs := compiled.dotted[target.dotted].lhs;
      if target.origin < c && lhs in chart[target.origin].leo {
        target := chart[target.origin].leo[lhs];
      }
      var count := leoItems + 1;
      if count > limits.maxLeoItems {
        return Some(LimitExceeded(LeoItems, count, limits.maxLeoItems));
      }
      chart := chart[c := chart[c].(leo := chart[c].leo[postdot := target])];
      leoItems := count;
      return None;
    }

    // Move the scans over the byte; the accepting ones advance their waiters into column `c`.
    method StepScans(c: nat, byte: Byte, scans: seq<Scan>) returns (continuing: seq<Scan>, error: Option<RuntimeError>)
      requires c < |chart|
      modifies this
      ensures var r := Earley.StepScans(Settings(), old(Abs()), c, byte, scans, []);
              Ran(r, error) && (r.Done? ==> continuing == r.value)
    {
      continuing := [];
      var i := 0;
      while i < |scans|
        invariant 0 <= i <= |scans| && c < |chart|
        invariant Earley.StepScans(Settings(), Abs(), c, byte, scans[i..], continuing)
               == Earley.StepScans(Settings(), old(Abs()), c, byte, scans, [])
      {
        assert scans[i..][1..] == scans[i + 1..];
        var scan := scans[i];
        if scan.terminal >= |compiled.grammar.terminals| {
          return continuing, Some(InternalInvariant);
        }
        var terminal := compiled.grammar.terminals[scan.terminal];
        var cursor := Advance(terminal, scan.cursor, byte);
        if cursor.Some? {
          if Terminals.IsAccepting(terminal, cursor.value) {
            if scan.start >= |chart| {
              return continuing, Some(InternalInvariant);
            }
            error := AdvanceAll(c, Lookup(chart[scan.start].waitingTerminal, scan.terminal));
            if error.Some? {
              return;
            }
          }
          if Terminals.IsLive(terminal, cursor.value) {
            continuing := continuing + [scan.(cursor := cursor.value)];
          }
        }
        i := i + 1;
      }
      error := None;
    }

    // Consume one byte.  `live` is the answer when no error is reported.
    method AdvanceByte(byte: Byte) returns (live: bool, error: Option<RuntimeError>)
      modifies this
      ensures var r := Earley.AdvanceByte(Settings(), old(Abs()), byte);
              Ran(r, error) && (r.Done? ==> live == r.value)
    {
      hide Earley.StepScans, Earley.Saturate, Earley.IsLive, SortDedup, Inserted;
      live := false;
      var position := bytePosition + 1;
      if position > limits.maxInputBytes {
        return false, Some(LimitExceeded(InputBytes, position, limits.maxInputBytes));
      }
      if |chart| + 1 > limits.maxChartColumns {
        return false, Some(LimitExceeded(ChartColumns, |chart| + 1, limits.maxChartColumns));
      }
      if position >= TWO_TO_THE_32 {
        return false, Some(LimitExceeded(InputBytes, position, TWO_TO_THE_32 - 1));
      }
      chart := chart + [NewColumn(position)];
      var column := |chart| - 1;
      var scans := activeScans;
      activeScans := [];
      var continuing, created;
      continuing, error := StepScans(column, byte, scans);
      if error.Some? {
        return;
      }
      created, error := Saturate(column);
      if error.Some? {
        return;
      }
      continuing := SortDedup(continuing + created);
      if |continuing| > limits.maxActiveScans {
        return false, Some(LimitExceeded(ActiveScans, |continuing|, limits.maxActiveScans));
      }
      activeScans := continuing;
      bytePosition := position;
      live := IsLive();
      error := None;
    }

    function Checkpoint(): Earley.Checkpoint
      reads this
    {
      Save(generation, Abs())
    }

    method Restore(checkpoint: Earley.Checkpoint) returns (error: Option<RuntimeError>)
      modifies this
      ensures Ran(Earley.Restore(generation, old(Abs()), checkpoint), error)
    {
      if checkpoint.generation != generation {
        return Some(InvalidCheckpoint(generation, checkpoint.generation));
      }
      if checkpoint.columnCount == 0 || checkpoint.columnCount > |chart| {
        return Some(InternalInvariant);
      }
      chart := chart[..checkpoint.columnCount];
      activeScans := checkpoint.scans;
      bytePosition := checkpoint.bytePosition;
      totalItems := checkpoint.totalItems;
      leoItems := checkpoint.leoItems;
      return None;
    }

    function IsAccepting(): bool
      reads this
    {
      Earley.IsAccepting(Settings(), Abs())
    }

    function IsLive(): bool
      reads this
    {
      Earley.IsLive(Settings(), Abs())
    }
  }
}
