/**
 One interface over the three recognizers.  A chunk of bytes is all or nothing: on a rejection or an error
 the recognizer is back where it was, although each backend may have left scratch work behind on the way.
 */
module Recognizers {
  import opened Grammars
  import Terminals
  import opened Runtime
  import opened EarleyRecognizers
  import opened LalrRecognizers
  import Earley
  import LalrDriver

  // ---------- Machines and their states, as values ----------

  datatype Machine =
    | DfaMachine(dfa: Terminals.ByteDfa, limits: RuntimeLimits)
    | LalrMachine(lalr: LalrDriver.Config)
    | EarleyMachine(earley: Earley.Config)

  datatype MachineState =
    | DfaAt(state: nat, position: nat)
    | LalrAt(lalr: LalrDriver.State)
    | EarleyAt(earley: Earley.State)

  function LimitsOf(m: Machine): RuntimeLimits {
    match m
    case DfaMachine(_, limits) => limits
    case LalrMachine(lalr) => lalr.limits
    case EarleyMachine(earley) => earley.limits
  }

  predicate Fits(m: Machine, s: MachineState) {
    match m
    case DfaMachine(_, _) => s.DfaAt?
    case LalrMachine(_) => s.LalrAt?
    case EarleyMachine(_) => s.EarleyAt? && s.earley.chart != []
  }

  // `later` was reached from `earlier`: the Earley chart only ever grows.
  ghost predicate Extends(later: MachineState, earlier: MachineState) {
    match (later, earlier)
    case (DfaAt(_, _), DfaAt(_, _)) => true
    case (LalrAt(_), LalrAt(_)) => true
    case (EarleyAt(l), EarleyAt(e)) => e.chart <= l.chart
    case _ => false
  }

  lemma ExtendsTransitive(a: MachineState, b: MachineState, c: MachineState)
    requires Extends(a, b) && Extends(b, c)
    ensures Extends(a, c)
  {
  }

  function DfaAdvance(dfa: Terminals.ByteDfa, limits: RuntimeLimits, state: nat, position: nat,
      byte: Byte): Outcome<MachineState, bool>
  {
    var next := position + 1;
    if next > limits.maxInputBytes then
      Failed(DfaAt(state, position), LimitExceeded(InputBytes, next, limits.maxInputBytes))
    else
      var q := dfa.NextState(state, byte);
      if dfa.IsDead(q) || !dfa.IsLive(q) then
        Done(DfaAt(state, position), false)
      else if next >= TWO_TO_THE_32 then
        Failed(DfaAt(q, position), LimitExceeded(InputBytes, next, TWO_TO_THE_32 - 1))
      else
        Done(DfaAt(q, next), true)
  }

  function Map<S, T>(r: Outcome<S, T>, f: S -> MachineState): Outcome<MachineState, T> {
    match r
    case Failed(s, error) => Failed(f(s), error)
    case Done(s, value) => Done(f(s), value)
  }

  function StepByte(m: Machine, s: MachineState, byte: Byte): (r: Outcome<MachineState, bool>)
    requires Fits(m, s)
    ensures Fits(m, r.state) && Extends(r.state, s)
  {
    match m
    case DfaMachine(dfa, limits) => DfaAdvance(dfa, limits, s.state, s.position, byte)
    case LalrMachine(cf) => Map(LalrDriver.AdvanceByte(cf, s.lalr, byte), st => LalrAt(st))
    case EarleyMachine(cf) =>
      Earley.AdvanceByteExtends(cf, s.earley, byte);
      Map(Earley.AdvanceByte(cf, s.earley, byte), st => EarleyAt(st))
  }

  predicate IsAccepting(m: Machine, s: MachineState)
    requires Fits(m, s)
  {
    match m
    case DfaMachine(dfa, _) => dfa.IsAccepting(s.state)
    case LalrMachine(cf) => LalrDriver.StackAccepts(cf, s.lalr)
    case EarleyMachine(cf) => Earley.IsAccepting(cf, s.earley)
  }

  predicate IsLive(m: Machine, s: MachineState)
    requires Fits(m, s)
  {
    match m
    case DfaMachine(dfa, _) => dfa.IsLive(s.state)
    case LalrMachine(cf) => LalrDriver.StackLives(cf, s.lalr)
    case EarleyMachine(cf) => Earley.IsLive(cf, s.earley)
  }

  // ---------- Chunks ----------

  datatype Advance = Rejected | Live | Accepting

  // Byte by byte, stopping at the first error or rejection; the scratch state is where it stopped.
  function Consume(m: Machine, s: MachineState, bytes: Word): (r: Outcome<MachineState, bool>)
    requires Fits(m, s)
    ensures Fits(m, r.state)
    decreases |bytes|
  {
    if bytes == [] then
      Done(s, true)
    else
      var (next, live) :- StepByte(m, s, bytes[0]);
      if live then Consume(m, next, bytes[1..]) else Done(next, false)
  }

  // The whole chunk or nothing.
  function TryAdvance(m: Machine, s: MachineState, bytes: Word): (r: Outcome<MachineState, Advance>)
    requires Fits(m, s)
    ensures Fits(m, r.state)
  {
    match Consume(m, s, bytes)
    case Failed(_, error) => Failed(s, error)
    case Done(next, true) => Done(next, if IsAccepting(m, next) then Accepting else Live)
    case Done(_, false) => Done(s, Rejected)
  }

  // The chunk gets through from `s` to `next`.
  predicate Passes(m: Machine, s: MachineState, bytes: Word, next: MachineState)
    requires Fits(m, s)
  {
    Consume(m, s, bytes) == Done(next, true)
  }

  lemma {:induction false} ConsumeExtends(m: Machine, s: MachineState, bytes: Word)
    requires Fits(m, s)
    ensures Extends(Consume(m, s, bytes).state, s)
    decreases |bytes|
  {
    hide StepByte;
    if bytes != [] {
      var r := StepByte(m, s, bytes[0]);
      if r.Done? && r.value {
        ConsumeExtends(m, r.state, bytes[1..]);
        ExtendsTransitive(Consume(m, r.state, bytes[1..]).state, r.state, s);
      }
    }
  }

  lemma {:induction false} ConsumeSplit(m: Machine, s: MachineState, u: Word, v: Word)
    requires Fits(m, s)
    ensures var first := Consume(m, s, u);
            Consume(m, s, u + v) == if first.Done? && first.value then Consume(m, first.state, v) else first
    decreases |u|
  {
    hide StepByte;
    if u == [] {
      assert u + v == v;
    } else {
      assert (u + v)[0] == u[0] && (u + v)[1..] == u[1..] + v;
      var r := StepByte(m, s, u[0]);
      if r.Done? && r.value {
        ConsumeSplit(m, r.state, u[1..], v);
      }
    }
  }

  // A chunk that is not rejected equals any split of it, and a split gets through exactly when the chunk does.
  lemma SplitChunk(m: Machine, s: MachineState, u: Word, v: Word)
    requires Fits(m, s)
    ensures var whole, first := TryAdvance(m, s, u + v), TryAdvance(m, s, u);
            (whole.Done? && whole.value != Rejected) <==>
            (first.Done? && first.value != Rejected
             && TryAdvance(m, first.state, v).Done? && TryAdvance(m, first.state, v).value != Rejected)
    ensures var whole, first := TryAdvance(m, s, u + v), TryAdvance(m, s, u);
            whole.Done? && whole.value != Rejected ==> whole == TryAdvance(m, first.state, v)
  {
    ConsumeSplit(m, s, u, v);
  }

  // On a rejection or an error nothing has changed.
  lemma AllOrNothing(m: Machine, s: MachineState, bytes: Word)
    requires Fits(m, s)
    ensures var r := TryAdvance(m, s, bytes);
            && ((r.Failed? || r.value == Rejected) ==> r.state == s)
            && (r.Done? && r.value != Rejected <==> exists next :: Passes(m, s, bytes, next))
            && (r.Done? && r.value != Rejected ==>
                  Passes(m, s, bytes, r.state) && Extends(r.state, s)
                    && (r.value == Accepting <==> IsAccepting(m, r.state)))
  {
    ConsumeExtends(m, s, bytes);
    if r: MachineState :| Passes(m, s, bytes, r) {
      assert Consume(m, s, bytes) == Done(r, true);
    }
    assert Consume(m, s, bytes).Done? && Consume(m, s, bytes).value ==> Passes(m, s, bytes, Consume(m, s, bytes).state);
  }

  // For the DFA and the Earley backends a byte that is not rejected leaves the recognizer live.
  lemma {:induction false} PassedIsLive(m: Machine, s: MachineState, bytes: Word)
    requires Fits(m, s) && !m.LalrMachine? && bytes != []
    ensures var r := Consume(m, s, bytes); r.Done? && r.value ==> IsLive(m, r.state)
    decreases |bytes|
  {
    var r := StepByte(m, s, bytes[0]);
    ByteIsLive(m, s, bytes[0]);
    hide StepByte, IsLive;
    if r.Done? && r.value {
      if bytes[1..] != [] {
        PassedIsLive(m, r.state, bytes[1..]);
      } else {
        assert Consume(m, r.state, bytes[1..]) == Done(r.state, true);
      }
    }
  }

  lemma ByteIsLive(m: Machine, s: MachineState, byte: Byte)
    requires Fits(m, s) && !m.LalrMachine?
    ensures var r := StepByte(m, s, byte); r.Done? && r.value ==> IsLive(m, r.state)
  {
    match m
    case DfaMachine(_, _) =>
    case EarleyMachine(cf) =>
      EarleyByteIsLive(cf, s.earley, byte);
  }

  lemma EarleyByteIsLive(cf: Earley.Config, st: Earley.State, byte: Byte)
    ensures var r := Earley.AdvanceByte(cf, st, byte); r.Done? ==> r.value == Earley.IsLive(cf, r.state)
  {
    hide Earley.Saturate, Earley.StepScans;
  }

  // ---------- Checkpoints ----------

  datatype RecognizerCheckpoint =
    | DfaCheckpoint(generation: nat, state: nat, position: nat)
    | LalrCheckpoint(lalr: LalrRecognizers.Checkpoint)
    | EarleyCheckpoint(earley: Earley.Checkpoint)

  function Save(generation: nat, s: MachineState): RecognizerCheckpoint {
    match s
    case DfaAt(state, position) => DfaCheckpoint(generation, state, position)
    case LalrAt(st) => LalrCheckpoint(LalrRecognizers.Checkpoint(generation, st))
    case EarleyAt(st) => EarleyCheckpoint(Earley.Save(generation, st))
  }

  function RestoreFrom(generation: nat, s: MachineState,
      checkpoint: RecognizerCheckpoint): (r: Outcome<MachineState, ()>)
    ensures r.Failed? ==> r.state == s
  {
    match (s, checkpoint)
    case (DfaAt(_, _), DfaCheckpoint(found, state, position)) =>
      if found != generation then Failed(s, InvalidCheckpoint(generation, found)) else Done(DfaAt(state, position), ())
    case (LalrAt(_), LalrCheckpoint(cp)) =>
      if cp.generation != generation then
        Failed(s, InvalidCheckpoint(generation, cp.generation))
      else
        Done(LalrAt(cp.saved), ())
    case (EarleyAt(st), EarleyCheckpoint(cp)) => Map(Earley.Restore(generation, st, cp), st => EarleyAt(st))
    case _ => Failed(s, InternalInvariant)
  }

  // Restoring is exact from every state reached since the checkpoint.
  lemma RestoreExact(m: Machine, generation: nat, earlier: MachineState, later: MachineState)
    requires Fits(m, earlier) && Fits(m, later) && Extends(later, earlier)
    ensures RestoreFrom(generation, later, Save(generation, earlier)) == Done(earlier, ())
  {
    if earlier.EarleyAt? {
      Earley.RestoreExact(generation, earlier.earley, later.earley);
    }
  }

  // A checkpoint of another recognizer is refused.
  lemma ForeignCheckpoint(m: Machine, generation: nat, other: nat, earlier: MachineState, later: MachineState)
    requires Fits(m, earlier) && Fits(m, later) && other != generation
    ensures RestoreFrom(generation, later, Save(other, earlier)) == Failed(later, InvalidCheckpoint(generation, other))
  {
  }

  // ---------- The recognizers as objects ----------

  class DfaRecognizer {
    const dfa: Terminals.ByteDfa
    const limits: RuntimeLimits
    const generation: nat
    var state: nat
    var position: nat

    function Abs(): MachineState
      reads this
    {
      DfaAt(state, position)
    }

    constructor (dfa: Terminals.ByteDfa, limits: RuntimeLimits, generation: nat)
      ensures this.dfa == dfa && this.limits == limits && this.generation == generation && Abs() == DfaAt(0, 0)
    {
      this.dfa := dfa;
      this.limits := limits;
      this.generation := generation;
      state := 0;
      position := 0;
    }

    method AdvanceByte(byte: Byte) returns (live: bool, error: Option<RuntimeError>)
      modifies this
      ensures var r := DfaAdvance(dfa, limits, old(state), old(position), byte);
              Abs() == r.state && error == (if r.Failed? then Some(r.error) else None) && (r.Done? ==> live == r.value)
    {
      live := false;
      var next := position + 1;
      if next > limits.maxInputBytes {
        return false, Some(LimitExceeded(InputBytes, next, limits.maxInputBytes));
      }
      var q := dfa.NextState(state, byte);
      if dfa.IsDead(q) || !dfa.IsLive(q) {
        return false, None;
      }
      state := q;
      if next >= TWO_TO_THE_32 {
        return false, Some(LimitExceeded(InputBytes, next, TWO_TO_THE_32 - 1));
      }
      position := next;
      return true, None;
    }
  }

  datatype RecognizerState = DfaBackend(dfa: DfaRecognizer) | LalrBackend(lalr: LalrRecognizer)
    | EarleyBackend(earley: EarleyRecognizer) {

    function Object(): object {
      match this
      case DfaBackend(r) => r
      case LalrBackend(r) => r
      case EarleyBackend(r) => r
    }

    function Generation(): nat {
      match this
      case DfaBackend(r) => r.generation
      case LalrBackend(r) => r.generation
      case EarleyBackend(r) => r.generation
    }

    function Settings(): Machine {
      match this
      case DfaBackend(r) => DfaMachine(r.dfa, r.limits)
      case LalrBackend(r) => LalrMachine(r.Settings())
      case EarleyBackend(r) => EarleyMachine(r.Settings())
    }

    function Abs(): MachineState
      reads Object()
    {
      match this
      case DfaBackend(r) => r.Abs()
      case LalrBackend(r) => LalrAt(r.Abs())
      case EarleyBackend(r) => EarleyAt(r.Abs())
    }

    ghost predicate Valid()
      reads Object()
    {
      Fits(Settings(), Abs())
    }

    ghost predicate Ran<T>(r: Outcome<MachineState, T>, error: Option<RuntimeError>)
      reads Object()
    {
      Abs() == r.state && error == if r.Failed? then Some(r.error) else None
    }

    method AdvanceByte(byte: Byte) returns (live: bool, error: Option<RuntimeError>)
      requires Valid()
      modifies Object()
      ensures var r := StepByte(Settings(), old(Abs()), byte);
              Ran(r, error) && (r.Done? ==> live == r.value)
    {
      hide LalrDriver.AdvanceByte, Earley.AdvanceByte;
      match this
      case DfaBackend(r) => live, error := r.AdvanceByte(byte);
      case LalrBackend(r) => live, error := r.AdvanceByte(byte);
      case EarleyBackend(r) => live, error := r.AdvanceByte(byte);
    }

    method Accepting() returns (accepting: bool)
      requires Valid()
      ensures accepting == IsAccepting(Settings(), Abs())
    {
      match this
      case DfaBackend(r) => accepting := r.dfa.IsAccepting(r.state);
      case LalrBackend(r) => accepting := r.IsAccepting();
      case EarleyBackend(r) => accepting := r.IsAccepting();
    }

    method Live() returns (live: bool)
      requires Valid()
      ensures live == IsLive(Settings(), Abs())
    {
      match this
      case DfaBackend(r) => live := r.dfa.IsLive(r.state);
      case LalrBackend(r) => live := r.IsLive();
      case EarleyBackend(r) => live := r.IsLive();
    }

    function Checkpoint(): RecognizerCheckpoint
      reads Object()
    {
      Save(Generation(), Abs())
    }

    method Restore(checkpoint: RecognizerCheckpoint) returns (error: Option<RuntimeError>)
      modifies Object()
      ensures Ran(RestoreFrom(Generation(), old(Abs()), checkpoint), error)
    {
      match (this, checkpoint)
      case (DfaBackend(r), DfaCheckpoint(found, state, position)) =>
        if found != r.generation {
          return Some(InvalidCheckpoint(r.generation, found));
        }
        r.state := state;
        r.position := position;
        error := None;
      case (LalrBackend(r), LalrCheckpoint(cp)) => error := r.Restore(cp);
      case (EarleyBackend(r), EarleyCheckpoint(cp)) => error := r.Restore(cp);
      case _ => error := Some(InternalInvariant);
    }

    // A separate recognizer in the same state.
    method Clone() returns (copy: RecognizerState)
      ensures fresh(copy.Object()) && copy.Abs() == Abs() && copy.Settings() == Settings()
      ensures copy.Generation() == Generation()
    {
      match this
      case DfaBackend(r) =>
        var c := new DfaRecognizer(r.dfa, r.limits, r.generation);
        c.state, c.position := r.state, r.position;
        copy := DfaBackend(c);
      case LalrBackend(r) =>
        var c := new LalrRecognizer(r.compiled, r.limits, r.fuel, r.generation);
        c.stack, c.candidates, c.bytePosition := r.stack, r.candidates, r.bytePosition;
        copy := LalrBackend(c);
      case EarleyBackend(r) =>
        var c := new EarleyRecognizer(r.compiled, r.limits, r.leoEnabled, r.generation);
        c.chart, c.activeScans, c.bytePosition, c.totalItems, c.leoItems := r.chart, r.activeScans, r.bytePosition,
          r.totalItems, r.leoItems;
        copy := EarleyBackend(c);
    }

    // Advance over the whole chunk, or restore the checkpoint taken before it.
    method TryAdvanceBytes(bytes: Word) returns (answer: Advance, error: Option<RuntimeError>)
      requires Valid()
      modifies Object()
      ensures Valid()
      ensures var r := TryAdvance(Settings(), old(Abs()), bytes);
              Ran(r, error) && (r.Done? ==> answer == r.value)
    {
      hide StepByte, Consume, TryAdvance, IsAccepting, Extends, RestoreFrom, Save, Fits;
      var checkpoint := Checkpoint();
      ghost var m, s0 := Settings(), Abs();
      ExtendsItself(m, s0);
      var i := 0;
      answer := Rejected;
      while i < |bytes|
        invariant 0 <= i <= |bytes| && Fits(m, Abs()) && Extends(Abs(), s0)
        invariant Consume(m, Abs(), bytes[i..]) == Consume(m, s0, bytes)
      {
        ghost var before := Abs();
        ConsumeStep(m, before, bytes[i..]);
        assert bytes[i..][1..] == bytes[i + 1..];
        var live;
        live, error := AdvanceByte(bytes[i]);
        ExtendsTransitive(Abs(), before, s0);
        if error.Some? || !live {
          RestoreExact(m, Generation(), s0, Abs());
          var failed := Restore(checkpoint);
          TryAdvanceStops(m, s0, bytes);
          return Rejected, if failed.Some? then failed else error;
        }
        i := i + 1;
      }
      ConsumeNothing(m, Abs(), bytes[i..]);
      var accepting := Accepting();
      TryAdvanceStops(m, s0, bytes);
      return if accepting then Advance.Accepting else Advance.Live, None;
    }
  }

  lemma ExtendsItself(m: Machine, s: MachineState)
    requires Fits(m, s)
    ensures Extends(s, s)
  {
  }

  lemma ConsumeStep(m: Machine, s: MachineState, bytes: Word)
    requires Fits(m, s) && bytes != []
    ensures var r := StepByte(m, s, bytes[0]);
            Consume(m, s, bytes) == if r.Done? && r.value then Consume(m, r.state, bytes[1..]) else r
  {
    hide StepByte;
  }

  lemma ConsumeNothing(m: Machine, s: MachineState, bytes: Word)
    requires Fits(m, s) && bytes == []
    ensures Consume(m, s, bytes) == Done(s, true)
  {
  }

  lemma TryAdvanceStops(m: Machine, s: MachineState, bytes: Word)
    requires Fits(m, s)
    ensures var c, r := Consume(m, s, bytes), TryAdvance(m, s, bytes);
            && (c.Failed? ==> r == Failed(s, c.error))
            && (c.Done? && !c.value ==> r == Done(s, Rejected))
            && (c.Done? && c.value ==> r == Done(c.state, if IsAccepting(m, c.state) then Accepting else Live))
  {
  }
}
