/**
 The LALR recognizer as it runs: an object that keeps a state stack and the candidates for the token being
 read.  Each method is proved equal to the corresponding step of `LalrDriver`.
 */
module LalrRecognizers {
  import opened Grammars
  import opened Terminals
  import opened Runtime
  import opened Lalr
  import opened LalrDriver

  datatype Checkpoint = Checkpoint(generation: nat, saved: State)

  class LalrRecognizer {
    const compiled: CompiledLalr
    const limits: RuntimeLimits
    const fuel: nat
    const generation: nat
    var stack: seq<nat>
    var candidates: seq<Candidate>
    var bytePosition: nat

    function Settings(): Config {
      Config(compiled, limits, fuel)
    }

    function Abs(): State
      reads this
    {
      State(stack, candidates, bytePosition)
    }

    // The object is in the state `r` ends in, and the reported error is the one of `r`.
    ghost predicate Ran<T>(r: Outcome<State, T>, error: Option<RuntimeError>)
      reads this
    {
      Abs() == r.state && error == if r.Failed? then Some(r.error) else None
    }

    constructor (compiled: CompiledLalr, limits: RuntimeLimits, fuel: nat, generation: nat)
      ensures Settings() == Config(compiled, limits, fuel) && this.generation == generation && Abs() == Initial()
    {
      this.compiled := compiled;
      this.limits := limits;
      this.fuel := fuel;
      this.generation := generation;
      stack := [0];
      candidates := [];
      bytePosition := 0;
    }

    // Reduce a copy of the stack until the table says something else.
    method ActionAfterReductions(stack: seq<nat>, l: Lookahead)
        returns (settled: seq<nat>, action: Option<Action>, error: Option<RuntimeError>)
      ensures Settle(Settings(), stack, l, fuel) ==
              if error.Some? then Failed(settled, error.value) else Done(settled, action)
    {
      settled, action := stack, None;
      var left := fuel;
      while true
        invariant Settle(Settings(), settled, l, left) == Settle(Settings(), stack, l, fuel)
        decreases left
      {
        if settled == [] {
          return settled, None, Some(InternalInvariant);
        }
        action := FindAction(compiled.table, settled[|settled| - 1], l);
        if action.None? || !action.value.Reduce? {
          return settled, action, None;
        }
        if left == 0 {
          return settled, None, Some(NotSettled);
        }
        var p := action.value.production;
        if p >= |compiled.productions| || |compiled.productions[p].rhs| >= |settled| {
          return settled, None, Some(InternalInvariant);
        }
        var base := settled[..|settled| - |compiled.productions[p].rhs|];
        var target := FindGoto(compiled.table, base[|base| - 1], compiled.productions[p].lhs);
        if target.None? {
          return settled, None, Some(InternalInvariant);
        }
        settled := base + [target.value];
        if |settled| > limits.maxParseStack {
          return settled, None, Some(LimitExceeded(ParseStack, |settled|, limits.maxParseStack));
        }
        left := left - 1;
      }
    }

    method CandidatesFor() returns (found: seq<Candidate>, error: Option<RuntimeError>)
      ensures LalrDriver.StartCandidates(Settings(), stack) ==
              if error.Some? then Failed((), error.value) else Done((), found)
    {
      found := [];
      var t := 0;
      while t < |compiled.grammar.terminals|
        invariant Candidates(Settings(), stack, t, found) == Candidates(Settings(), stack, 0, [])
      {
        var settled, action;
        settled, action, error := ActionAfterReductions(stack, On(t));
        if error.Some? {
          return;
        }
        if action.Some? && action.value.Shift? {
          found := found + [Candidate(t, Start(compiled.grammar.terminals[t]), settled, action.value.state)];
        }
        t := t + 1;
      }
      if |found| > limits.maxActiveScans {
        return found, Some(LimitExceeded(ActiveScans, |found|, limits.maxActiveScans));
      }
      return found, None;
    }

    // Offer the byte to every candidate, leaving none behind.
    method StepCandidates(byte: Byte) returns (accepted: seq<Candidate>, live: seq<Candidate>)
      modifies this
      ensures (accepted, live) == StepAll(Settings(), old(candidates), byte)
      ensures Abs() == old(Abs()).(candidates := [])
    {
      accepted, live := [], [];
      var i := 0;
      var offered := candidates;
      candidates := [];
      while i < |offered|
        invariant 0 <= i <= |offered|
        invariant (accepted, live) == StepAll(Settings(), offered[..i], byte)
        invariant Abs() == old(Abs()).(candidates := [])
      {
        assert offered[..i + 1][..i] == offered[..i];
        var candidate := offered[i];
        if candidate.terminal < |compiled.grammar.terminals| {
          var terminal := compiled.grammar.terminals[candidate.terminal];
          var cursor := Advance(terminal, candidate.cursor, byte);
          if cursor.Some? {
            candidate := candidate.(cursor := cursor.value);
            if Terminals.IsAccepting(terminal, candidate.cursor) {
              accepted := accepted + [candidate];
            }
            if Terminals.IsLive(terminal, candidate.cursor) {
              live := live + [candidate];
            }
          }
        }
        i := i + 1;
      }
      assert offered[..i] == offered;
    }

    method AdvanceByte(byte: Byte) returns (alive: bool, error: Option<RuntimeError>)
      modifies this
      ensures var r := LalrDriver.AdvanceByte(Settings(), old(Abs()), byte);
              Ran(r, error) && (r.Done? ==> alive == r.value)
    {
      alive := false;
      var position := bytePosition + 1;
      if position > limits.maxInputBytes {
        return false, Some(LimitExceeded(InputBytes, position, limits.maxInputBytes));
      }
      if candidates == [] {
        var found;
        found, error := CandidatesFor();
        if error.Some? {
          return;
        }
        candidates := found;
      }
      var accepted, live := StepCandidates(byte);
      if |accepted| > 1 {
        return false, Some(InternalInvariant);
      }
      if |accepted| == 1 {
        var next := accepted[0].stack + [accepted[0].shift];
        if |next| > limits.maxParseStack {
          return false, Some(LimitExceeded(ParseStack, |next|, limits.maxParseStack));
        }
        stack := next;
      } else {
        candidates := live;
        if live == [] {
          return false, None;
        }
      }
      if position >= TWO_TO_THE_32 {
        return false, Some(LimitExceeded(InputBytes, position, TWO_TO_THE_32 - 1));
      }
      bytePosition := position;
      return true, None;
    }

    method IsAccepting() returns (accepting: bool)
      ensures accepting == StackAccepts(Settings(), Abs())
    {
      if candidates != [] {
        return false;
      }
      var settled, action, error := ActionAfterReductions(stack, Eof);
      return error.None? && action == Some(Accept);
    }

    method IsLive() returns (live: bool)
      ensures live == StackLives(Settings(), Abs())
    {
      if candidates != [] {
        return true;
      }
      var accepting := IsAccepting();
      if accepting {
        return true;
      }
      var found, error := CandidatesFor();
      return error.None? && found != [];
    }

    function Save(): Checkpoint
      reads this
    {
      Checkpoint(generation, Abs())
    }

    method Restore(checkpoint: Checkpoint) returns (error: Option<RuntimeError>)
      modifies this
      ensures checkpoint.generation == generation ==> error == None && Abs() == checkpoint.saved
      ensures checkpoint.generation != generation ==>
                error == Some(InvalidCheckpoint(generation, checkpoint.generation)) && Abs() == old(Abs())
    {
      if checkpoint.generation != generation {
        return Some(InvalidCheckpoint(generation, checkpoint.generation));
      }
      stack := checkpoint.saved.stack;
      candidates := checkpoint.saved.candidates;
      bytePosition := checkpoint.saved.bytePosition;
      return None;
    }
  }
}
