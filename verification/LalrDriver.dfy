/**
 The byte-at-a-time LALR recognizer as functions from state to state.  At a token boundary every terminal
 whose lookahead leads to a shift becomes a candidate; the first accepting candidate is committed.

 The reduction loop has no measure of its own, so `fuel` bounds it and `NotSettled` stands for not coming
 back; `LalrTheorems` shows how much fuel is always enough.
 */
module LalrDriver {
  import opened Grammars
  import opened Terminals
  import opened Runtime
  import opened Lalr

  datatype Config = Config(compiled: CompiledLalr, limits: RuntimeLimits, fuel: nat)

  datatype Candidate = Candidate(terminal: nat, cursor: Cursor, stack: seq<nat>, shift: nat)

  datatype State = State(stack: seq<nat>, candidates: seq<Candidate>, bytePosition: nat)

  function Initial(): State {
    State([0], [], 0)
  }

  // Reduce under lookahead `l` until the table says something else.
  function Settle(cf: Config, stack: seq<nat>, l: Lookahead, fuel: nat): Outcome<seq<nat>, Option<Action>>
    decreases fuel
  {
    if stack == [] then
      Failed(stack, InternalInvariant)
    else
      match FindAction(cf.compiled.table, stack[|stack| - 1], l)
      case Some(Reduce(p)) =>
        if fuel == 0 then
          Failed(stack, NotSettled)
        else
          (match ReduceBy(cf.compiled.productions, cf.compiled.table, stack, p)
           case None => Failed(stack, InternalInvariant)
           case Some(next) =>
             if |next| > cf.limits.maxParseStack then
               Failed(next, LimitExceeded(ParseStack, |next|, cf.limits.maxParseStack))
             else
               Settle(cf, next, l, fuel - 1))
      case other => Done(stack, other)
  }

  // The candidates among terminals `t` and up.
  function Candidates(cf: Config, stack: seq<nat>, t: nat, found: seq<Candidate>): Outcome<(), seq<Candidate>>
    decreases |cf.compiled.grammar.terminals| - t
  {
    if t >= |cf.compiled.grammar.terminals| then
      Done((), found)
    else
      match Settle(cf, stack, On(t), cf.fuel)
      case Failed(_, error) => Failed((), error)
      case Done(settled, Some(Shift(q))) =>
        Candidates(cf, stack, t + 1, found + [Candidate(t, Start(cf.compiled.grammar.terminals[t]), settled, q)])
      case Done(_, _) => Candidates(cf, stack, t + 1, found)
  }

  function StartCandidates(cf: Config, stack: seq<nat>): Outcome<(), seq<Candidate>> {
    match Candidates(cf, stack, 0, [])
    case Failed(_, error) => Failed((), error)
    case Done(_, found) =>
      if |found| > cf.limits.maxActiveScans then
        Failed((), LimitExceeded(ActiveScans, |found|, cf.limits.maxActiveScans))
      else
        Done((), found)
  }

  // The candidate after one byte, if it can read it.
  function Step(cf: Config, c: Candidate, byte: Byte): Option<Candidate> {
    if c.terminal >= |cf.compiled.grammar.terminals| then
      None
    else
      match Advance(cf.compiled.grammar.terminals[c.terminal], c.cursor, byte)
      case None => None
      case Some(cursor) => Some(c.(cursor := cursor))
  }

  // Step every candidate; collect the accepting ones and the live ones.
  function StepAll(cf: Config, candidates: seq<Candidate>, byte: Byte): (seq<Candidate>, seq<Candidate>) {
    if candidates == [] then
      ([], [])
    else
      var (accepted, live) := StepAll(cf, candidates[..|candidates| - 1], byte);
      match Step(cf, candidates[|candidates| - 1], byte)
      case None => (accepted, live)
      case Some(next) =>
        var terminal := cf.compiled.grammar.terminals[next.terminal];
        (if IsAccepting(terminal, next.cursor) then accepted + [next] else accepted,
         if IsLive(terminal, next.cursor) then live + [next] else live)
  }

  function AdvanceByte(cf: Config, st: State, byte: Byte): Outcome<State, bool> {
    var position := st.bytePosition + 1;
    if position > cf.limits.maxInputBytes then
      Failed(st, LimitExceeded(InputBytes, position, cf.limits.maxInputBytes))
    else
      var start := if st.candidates == [] then StartCandidates(cf, st.stack) else Done((), st.candidates);
      match start
      case Failed(_, error) => Failed(st, error)
      case Done(_, candidates) => Commit(cf, st, position, StepAll(cf, candidates, byte))
  }

  // Decide what the stepped candidates mean for the state.
  function Commit(cf: Config, st: State, position: nat, stepped: (seq<Candidate>, seq<Candidate>)): Outcome<State, bool>
  {
    var (accepted, live) := stepped;
    if |accepted| > 1 then
      Failed(st.(candidates := []), InternalInvariant)
    else if |accepted| == 1 then
      var stack := accepted[0].stack + [accepted[0].shift];
      if |stack| > cf.limits.maxParseStack then
        Failed(st.(candidates := []), LimitExceeded(ParseStack, |stack|, cf.limits.maxParseStack))
      else
        Counted(State(stack, [], st.bytePosition), position)
    else if live == [] then
      Done(st.(candidates := []), false)
    else
      Counted(st.(candidates := live), position)
  }

  function Counted(st: State, position: nat): Outcome<State, bool> {
    if position >= TWO_TO_THE_32 then
      Failed(st, LimitExceeded(InputBytes, position, TWO_TO_THE_32 - 1))
    else
      Done(st.(bytePosition := position), true)
  }

  predicate StackAccepts(cf: Config, st: State) {
    st.candidates == [] &&
    var r := Settle(cf, st.stack, Eof, cf.fuel);
    r.Done? && r.value == Some(Accept)
  }

  predicate StackLives(cf: Config, st: State) {
    st.candidates != [] || StackAccepts(cf, st) ||
    var r := StartCandidates(cf, st.stack);
    r.Done? && r.value != []
  }
}
