/**
 The incremental Earley recognizer as functions from state to state: agenda-driven columns, nullable
 advance, active terminal scans, and Leo's top items.  Every branch, limit check and error of the
 recognizer is here; `EarleyRecognizer` runs the same steps in place and is proved equal to them.
 An index the recognizer would fail on, or trip a bounds check with, is the `InternalInvariant` error.
 */
module Earley {
  import opened Grammars
  import opened Terminals
  import opened Runtime
  import opened ResidualGrammars

  datatype DottedRule = DottedRule(
    production: nat, dot: nat, next: Option<Symbol>, advanced: Option<nat>, lhs: nat)

  datatype Item = Item(dotted: nat, origin: nat)

  datatype Column = Column(
    position: nat,
    items: seq<Item>,
    membership: set<nat>,
    waitingNonterminal: map<nat, seq<Item>>,
    waitingTerminal: map<nat, seq<Item>>,
    leo: map<nat, Item>)

  datatype Scan = Scan(terminal: nat, start: nat, cursor: Cursor)

  datatype CompiledEarley = CompiledEarley(
    grammar: ResidualGrammar,
    productions: seq<Production>,
    dotted: seq<DottedRule>,
    offsets: seq<nat>,
    startsByLhs: seq<seq<nat>>,
    augmentedProduction: nat,
    augmentedComplete: nat)

  datatype Config = Config(compiled: CompiledEarley, limits: RuntimeLimits, leoEnabled: bool)

  datatype State = State(
    chart: seq<Column>, scans: seq<Scan>, bytePosition: nat, totalItems: nat, leoItems: nat)

  function NewColumn(position: nat): Column {
    Column(position, [], {}, map[], map[], map[])
  }

  // The packed membership key: dotted rule in the high half, origin in the low half.
  function Key(item: Item): nat {
    item.dotted * TWO_TO_THE_32 + item.origin
  }

  // ---------- Frames: what a step may touch ----------

  // Only column `c` differs, and there only by appended items (and membership); each is counted.
  ghost predicate Inserted(a: State, b: State, c: nat) {
    && c < |a.chart| == |b.chart|
    && (forall k :: 0 <= k < |a.chart| && k != c ==> a.chart[k] == b.chart[k])
    && a.chart[c].items <= b.chart[c].items
    && b.chart[c] == a.chart[c].(items := b.chart[c].items, membership := b.chart[c].membership)
    && b == a.(chart := b.chart, totalItems := b.totalItems)
    && b.totalItems - a.totalItems == |b.chart[c].items| - |a.chart[c].items|
  }

  // As above, and waiting lists may have grown at their ends.
  ghost predicate Grew(a: State, b: State, c: nat) {
    && c < |a.chart| == |b.chart|
    && (forall k :: 0 <= k < |a.chart| && k != c ==> a.chart[k] == b.chart[k])
    && a.chart[c].items <= b.chart[c].items
    && a.chart[c].position == b.chart[c].position
    && a.chart[c].leo == b.chart[c].leo
    && Extended(a.chart[c].waitingNonterminal, b.chart[c].waitingNonterminal)
    && Extended(a.chart[c].waitingTerminal, b.chart[c].waitingTerminal)
    && b == a.(chart := b.chart, totalItems := b.totalItems)
    && b.totalItems - a.totalItems == |b.chart[c].items| - |a.chart[c].items|
  }

  ghost predicate Extended(a: map<nat, seq<Item>>, b: map<nat, seq<Item>>) {
    forall k :: k in a ==> k in b && a[k] <= b[k]
  }

  predicate Fits(cf: Config, st: State, c: nat) {
    c < |st.chart| && |st.chart[c].items| <= cf.limits.maxItemsPerColumn
  }

  // ---------- Items ----------

  function InsertItem(cf: Config, st: State, c: nat, item: Item): (r: Outcome<State, ()>)
    requires c < |st.chart|
    ensures Inserted(st, r.state, c)
    ensures Fits(cf, st, c) ==> Fits(cf, r.state, c)
  {
    var column := st.chart[c];
    if Key(item) in column.membership then
      Done(st, ())
    else
      var marked := column.(membership := column.membership + {Key(item)});
      var st1 := st.(chart := st.chart[c := marked]);
      var items := |column.items| + 1;
      var total := st.totalItems + 1;
      if items > cf.limits.maxItemsPerColumn then
        Failed(st1, LimitExceeded(ItemsPerColumn, items, cf.limits.maxItemsPerColumn))
      else if total > cf.limits.maxTotalItems then
        Failed(st1, LimitExceeded(TotalItems, total, cf.limits.maxTotalItems))
      else
        Done(st1.(chart := st1.chart[c := marked.(items := marked.items + [item])], totalItems := total), ())
  }

  function AdvanceItem(compiled: CompiledEarley, item: Item): Option<Item> {
    if item.dotted < |compiled.dotted| && compiled.dotted[item.dotted].advanced.Some? then
      Some(Item(compiled.dotted[item.dotted].advanced.value, item.origin))
    else
      None
  }

  function InsertAdvanced(cf: Config, st: State, c: nat, item: Item): (r: Outcome<State, ()>)
    requires c < |st.chart|
    ensures Inserted(st, r.state, c)
    ensures Fits(cf, st, c) ==> Fits(cf, r.state, c)
  {
    match AdvanceItem(cf.compiled, item)
    case None => Failed(st, InternalInvariant)
    case Some(advanced) => InsertItem(cf, st, c, advanced)
  }

  // Advance every waiter into column `c`.
  function AdvanceAll(cf: Config, st: State, c: nat, waiters: seq<Item>): (r: Outcome<State, ()>)
    requires c < |st.chart|
    ensures Inserted(st, r.state, c)
    ensures Fits(cf, st, c) ==> Fits(cf, r.state, c)
    decreases |waiters|
  {
    if waiters == [] then
      Done(st, ())
    else
      var (st1, _) :- InsertAdvanced(cf, st, c, waiters[0]);
      AdvanceAll(cf, st1, c, waiters[1..])
  }

  // Predict every listed start rule in column `c`.
  function PredictAll(cf: Config, st: State, c: nat, starts: seq<nat>): (r: Outcome<State, ()>)
    requires c < |st.chart|
    ensures Inserted(st, r.state, c)
    ensures Fits(cf, st, c) ==> Fits(cf, r.state, c)
    decreases |starts|
  {
    if starts == [] then
      Done(st, ())
    else
      var (st1, _) :- InsertItem(cf, st, c, Item(starts[0], st.chart[c].position));
      PredictAll(cf, st1, c, starts[1..])
  }

  // ---------- One agenda step ----------

  function Lookup(m: map<nat, seq<Item>>, k: nat): seq<Item> {
    if k in m then m[k] else []
  }

  function WaitOnNonterminal(st: State, c: nat, a: nat, item: Item): (r: State)
    requires c < |st.chart|
    ensures Grew(st, r, c) && r.chart[c].items == st.chart[c].items
  {
    var column := st.chart[c];
    var waiting := column.waitingNonterminal[a := Lookup(column.waitingNonterminal, a) + [item]];
    st.(chart := st.chart[c := column.(waitingNonterminal := waiting)])
  }

  function WaitOnTerminal(st: State, c: nat, t: nat, item: Item): (r: State)
    requires c < |st.chart|
    ensures Grew(st, r, c) && r.chart[c].items == st.chart[c].items
  {
    var column := st.chart[c];
    var waiting := column.waitingTerminal[t := Lookup(column.waitingTerminal, t) + [item]];
    st.(chart := st.chart[c := column.(waitingTerminal := waiting)])
  }

  function Predict(cf: Config, st: State, c: nat, a: nat, item: Item): (r: Outcome<State, ()>)
    requires c < |st.chart|
    ensures Grew(st, r.state, c)
    ensures Fits(cf, st, c) ==> Fits(cf, r.state, c)
  {
    var st1 := WaitOnNonterminal(st, c, a, item);
    if a >= |cf.compiled.startsByLhs| || a >= |cf.compiled.grammar.nullable| then
      Failed(st1, InternalInvariant)
    else
      var (st2, _) :- PredictAll(cf, st1, c, cf.compiled.startsByLhs[a]);
      if cf.compiled.grammar.nullable[a] then InsertAdvanced(cf, st2, c, item) else Done(st2, ())
  }

  function Complete(cf: Config, st: State, c: nat, item: Item): (r: Outcome<State, ()>)
    requires c < |st.chart| && item.dotted < |cf.compiled.dotted|
    ensures Inserted(st, r.state, c)
    ensures Fits(cf, st, c) ==> Fits(cf, r.state, c)
  {
    var rule := cf.compiled.dotted[item.dotted];
    if rule.production == cf.compiled.augmentedProduction then
      Done(st, ())
    else if item.origin >= |st.chart| then
      Failed(st, InternalInvariant)
    else
      var origin := st.chart[item.origin];
      if cf.leoEnabled && rule.lhs in origin.leo then
        InsertItem(cf, st, c, origin.leo[rule.lhs])
      else
        AdvanceAll(cf, st, c, Lookup(origin.waitingNonterminal, rule.lhs))
  }

  function ProcessItem(cf: Config, st: State, c: nat, item: Item, scans: seq<Scan>): (r: Outcome<State, seq<Scan>>)
    requires c < |st.chart|
    ensures Grew(st, r.state, c)
    ensures Fits(cf, st, c) ==> Fits(cf, r.state, c)
  {
    if item.dotted >= |cf.compiled.dotted| then
      Failed(st, InternalInvariant)
    else
      match cf.compiled.dotted[item.dotted].next
      case Some(Nonterminal(a)) =>
        var (st1, _) :- Predict(cf, st, c, a, item);
        Done(st1, scans)
      case Some(Terminal(t)) =>
        var st1 := WaitOnTerminal(st, c, t, item);
        if t >= |cf.compiled.grammar.terminals| then
          Failed(st1, InternalInvariant)
        else
          Done(st1, scans + [Scan(t, st.chart[c].position, Start(cf.compiled.grammar.terminals[t]))])
      case None =>
        var (st1, _) :- Complete(cf, st, c, item);
        Done(st1, scans)
  }

  // The agenda loop: process the items of column `c` from `agenda` on, including those it appends.
  function Agenda(cf: Config, st: State, c: nat, agenda: nat, scans: seq<Scan>): (r: Outcome<State, seq<Scan>>)
    requires Fits(cf, st, c)
    ensures Grew(st, r.state, c)
    decreases cf.limits.maxItemsPerColumn - agenda
  {
    if agenda < |st.chart[c].items| then
      var (st1, scans1) :- ProcessItem(cf, st, c, st.chart[c].items[agenda], scans);
      Agenda(cf, st1, c, agenda + 1, scans1)
    else
      Done(st, scans)
  }

  // ---------- Leo's top items ----------

  function LeoStep(cf: Config, st: State, c: nat, postdot: nat): (r: Outcome<State, ()>)
    requires c < |st.chart|
    ensures LeoOnly(st, r.state, c)
  {
    var column := st.chart[c];
    var dotted := cf.compiled.dotted;
    var waiters := Lookup(column.waitingNonterminal, postdot);
    if |waiters| != 1 then
      Done(st, ())
    else
      var waiter := waiters[0];
      if waiter.dotted >= |dotted| || dotted[waiter.dotted].production >= |cf.compiled.productions| then
        Failed(st, InternalInvariant)
      else if dotted[waiter.dotted].dot + 1 != |cf.compiled.productions[dotted[waiter.dotted].production].rhs| then
        Done(st, ())
      else
        match AdvanceItem(cf.compiled, waiter)
        case None => Failed(st, InternalInvariant)
        case Some(advanced) =>
          if advanced.dotted >= |dotted| then
            Failed(st, InternalInvariant)
          else
            var lhs := dotted[advanced.dotted].lhs;
            var target :=
              if advanced.origin < c && lhs in st.chart[advanced.origin].leo then
                st.chart[advanced.origin].leo[lhs]
              else
                advanced;
            var count := st.leoItems + 1;
            if count > cf.limits.maxLeoItems then
              Failed(st, LimitExceeded(LeoItems, count, cf.limits.maxLeoItems))
            else
              Done(st.(chart := st.chart[c := column.(leo := column.leo[postdot := target])], leoItems := count), ())
  }

  // Only the Leo table of column `c` and the Leo counter differ, and the counter never falls.
  ghost predicate LeoOnly(a: State, b: State, c: nat) {
    && c < |a.chart| == |b.chart|
    && (forall k :: 0 <= k < |a.chart| && k != c ==> a.chart[k] == b.chart[k])
    && b.chart[c] == a.chart[c].(leo := b.chart[c].leo)
    && b == a.(chart := b.chart, leoItems := b.leoItems)
    && b.leoItems >= a.leoItems
  }

  // The awaited nonterminals of column `c`, walked in ascending id order from `postdot` on.
  function FinishLeo(cf: Config, st: State, c: nat, postdot: nat): (r: Outcome<State, ()>)
    requires c < |st.chart|
    ensures LeoOnly(st, r.state, c)
    decreases |cf.compiled.startsByLhs| - postdot
  {
    if postdot < |cf.compiled.startsByLhs| then
      var (st1, _) :- LeoStep(cf, st, c, postdot);
      FinishLeo(cf, st1, c, postdot + 1)
    else
      Done(st, ())
  }

  // ---------- Scan lists: sorted by (terminal, start, cursor), without duplicates ----------

  function CursorKey(c: Cursor): (nat, nat) {
    match c
    case AtOffset(offset) => (0, offset)
    case AtState(state) => (1, state)
  }

  predicate ScanBefore(a: Scan, b: Scan) {
    if a.terminal != b.terminal then a.terminal < b.terminal
    else if a.start != b.start then a.start < b.start
    else if CursorKey(a.cursor).0 != CursorKey(b.cursor).0 then CursorKey(a.cursor).0 < CursorKey(b.cursor).0
    else CursorKey(a.cursor).1 < CursorKey(b.cursor).1
  }

  ghost predicate StrictlySorted(scans: seq<Scan>) {
    forall i, j :: 0 <= i < j < |scans| ==> ScanBefore(scans[i], scans[j])
  }

  function InsertScan(scan: Scan, sorted: seq<Scan>): (r: seq<Scan>)
    ensures forall s :: s in r <==> s == scan || s in sorted
    ensures StrictlySorted(sorted) ==> StrictlySorted(r)
  {
    if sorted == [] then [scan]
    else if scan == sorted[0] then sorted
    else if ScanBefore(scan, sorted[0]) then [scan] + sorted
    else
      var rest := InsertScan(scan, sorted[1..]);
      assert forall s :: s in sorted <==> s == sorted[0] || s in sorted[1..];
      assert StrictlySorted(sorted) ==> forall s :: s in rest ==> s == scan || ScanBefore(sorted[0], s);
      [sorted[0]] + rest
  }

  function SortDedup(scans: seq<Scan>): (r: seq<Scan>)
    ensures forall s :: s in r <==> s in scans
    ensures StrictlySorted(r)
  {
    if scans == [] then [] else InsertScan(scans[0], SortDedup(scans[1..]))
  }

  function Saturate(cf: Config, st: State, c: nat): (r: Outcome<State, seq<Scan>>)
    requires Fits(cf, st, c)
    ensures |r.state.chart| == |st.chart|
    ensures forall k :: 0 <= k < |st.chart| && k != c ==> r.state.chart[k] == st.chart[k]
    ensures r.state.scans == st.scans && r.state.bytePosition == st.bytePosition
    ensures r.Done? ==> StrictlySorted(r.value)
  {
    var (st1, scans) :- Agenda(cf, st, c, 0, []);
    var created := SortDedup(scans);
    if cf.leoEnabled then
      var (st2, _) :- FinishLeo(cf, st1, c, 0);
      Done(st2, created)
    else
      Done(st1, created)
  }

  // ---------- Starting and advancing ----------

  function EmptyState(): State {
    State([NewColumn(0)], [], 0, 0, 0)
  }

  function AcceptKey(compiled: CompiledEarley): nat {
    compiled.augmentedComplete * TWO_TO_THE_32
  }

  predicate IsAccepting(cf: Config, st: State) {
    st.chart != [] && AcceptKey(cf.compiled) in st.chart[|st.chart| - 1].membership
  }

  predicate IsLive(cf: Config, st: State) {
    IsAccepting(cf, st) || st.scans != []
  }

  function Initial(cf: Config): Outcome<State, ()> {
    var st := EmptyState();
    if 1 > cf.limits.maxChartColumns then
      Failed(st, LimitExceeded(ChartColumns, 1, cf.limits.maxChartColumns))
    else if cf.compiled.augmentedProduction >= |cf.compiled.offsets| then
      Failed(st, InternalInvariant)
    else
      var (st1, _) :- InsertItem(cf, st, 0, Item(cf.compiled.offsets[cf.compiled.augmentedProduction], 0));
      var (st2, scans) :- Saturate(cf, st1, 0);
      if |scans| > cf.limits.maxActiveScans then
        Failed(st2, LimitExceeded(ActiveScans, |scans|, cf.limits.maxActiveScans))
      else
        Done(st2.(scans := scans), ())
  }

  // Move every active scan over `byte`; accepting scans advance their waiters into column `c`.
  function StepScans(cf: Config, st: State, c: nat, byte: Byte, scans: seq<Scan>, continuing: seq<Scan>)
    : (r: Outcome<State, seq<Scan>>)
    requires c < |st.chart|
    ensures Inserted(st, r.state, c)
    ensures Fits(cf, st, c) ==> Fits(cf, r.state, c)
    decreases |scans|
  {
    if scans == [] then
      Done(st, continuing)
    else
      var scan := scans[0];
      if scan.terminal >= |cf.compiled.grammar.terminals| then
        Failed(st, InternalInvariant)
      else
        var terminal := cf.compiled.grammar.terminals[scan.terminal];
        match Advance(terminal, scan.cursor, byte)
        case None => StepScans(cf, st, c, byte, scans[1..], continuing)
        case Some(cursor) =>
          if Terminals.IsAccepting(terminal, cursor) && scan.start >= |st.chart| then
            Failed(st, InternalInvariant)
          else
            var waiters :=
              if Terminals.IsAccepting(terminal, cursor) then
                Lookup(st.chart[scan.start].waitingTerminal, scan.terminal)
              else
                [];
            var (st1, _) :- AdvanceAll(cf, st, c, waiters);
            var kept :=
              if Terminals.IsLive(terminal, cursor) then continuing + [scan.(cursor := cursor)] else continuing;
            StepScans(cf, st1, c, byte, scans[1..], kept)
  }

  function AdvanceByte(cf: Config, st: State, byte: Byte): Outcome<State, bool> {
    var position := st.bytePosition + 1;
    var columns := |st.chart| + 1;
    if position > cf.limits.maxInputBytes then
      Failed(st, LimitExceeded(InputBytes, position, cf.limits.maxInputBytes))
    else if columns > cf.limits.maxChartColumns then
      Failed(st, LimitExceeded(ChartColumns, columns, cf.limits.maxChartColumns))
    else if position >= TWO_TO_THE_32 then
      Failed(st, LimitExceeded(InputBytes, position, TWO_TO_THE_32 - 1))
    else
      var c := |st.chart|;
      var st1 := st.(chart := st.chart + [NewColumn(position)], scans := []);
      var (st2, continuing) :- StepScans(cf, st1, c, byte, st.scans, []);
      var (st3, created) :- Saturate(cf, st2, c);
      var scans := SortDedup(continuing + created);
      if |scans| > cf.limits.maxActiveScans then
        Failed(st3, LimitExceeded(ActiveScans, |scans|, cf.limits.maxActiveScans))
      else
        var st4 := st3.(scans := scans, bytePosition := position);
        Done(st4, IsLive(cf, st4))
  }

  // ---------- Checkpoints ----------

  datatype Checkpoint = Checkpoint(
    generation: nat, columnCount: nat, scans: seq<Scan>, bytePosition: nat, totalItems: nat, leoItems: nat)

  function Save(generation: nat, st: State): Checkpoint {
    Checkpoint(generation, |st.chart|, st.scans, st.bytePosition, st.totalItems, st.leoItems)
  }

  function Restore(generation: nat, st: State, cp: Checkpoint): Outcome<State, ()> {
    if cp.generation != generation then
      Failed(st, InvalidCheckpoint(generation, cp.generation))
    else if cp.columnCount == 0 || cp.columnCount > |st.chart| then
      Failed(st, InternalInvariant)
    else
      Done(State(st.chart[..cp.columnCount], cp.scans, cp.bytePosition, cp.totalItems, cp.leoItems), ())
  }

  // The chart is append-only: a byte never changes an earlier column, whether or not it succeeds.
  lemma AdvanceByteExtends(cf: Config, st: State, byte: Byte)
    ensures st.chart <= AdvanceByte(cf, st, byte).state.chart
  {
  }

  // Restoring gives the exact state back from any state whose chart still extends the saved one.
  lemma RestoreExact(generation: nat, saved: State, st: State)
    requires saved.chart != [] && saved.chart <= st.chart
    ensures Restore(generation, st, Save(generation, saved)) == Done(saved, ())
  {
    assert st.chart[..|saved.chart|] == saved.chart;
  }
}
