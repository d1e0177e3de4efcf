/**
 The mask traversal as it runs: an explicit stack of frames, each with a checkpoint of the recognizer at its
 node, writing bits into the destination.  It computes the walk of `Masks` and leaves the recognizer as it was.
 */
module MaskTraversals {
  import opened Grammars
  import opened Runtime
  import opened Recognizers
  import opened Tries
  import opened MaskBits
  import opened Masks

  datatype Frame = Frame(node: nat, nextEdge: nat, emitted: bool, checkpoint: RecognizerCheckpoint)

  // What one frame still has to do.
  function FrameRest(t: TokenTrie, m: Machine, limit: nat, frame: Frame, s: MachineState,
      sweep: Sweep): (r: Outcome<Sweep, ()>)
    requires Fits(m, s) && sweep.visited <= limit
    ensures r.Done? ==> sweep.visited <= r.state.visited <= limit
  {
    if !frame.emitted then WalkNode(t, m, limit, frame.node, s, sweep)
    else if frame.node >= |t.nodes| then Failed(sweep, InternalInvariant)
    else WalkEdges(t, m, limit, frame.node, frame.nextEdge, s, sweep)
  }

  // What the whole stack still has to do, top first.
  ghost function Rest(t: TokenTrie, m: Machine, limit: nat, frames: seq<Frame>, states: seq<MachineState>,
      sweep: Sweep): Outcome<Sweep, ()>
    requires |frames| == |states| && (forall s <- states :: Fits(m, s)) && sweep.visited <= limit
    decreases |frames|
  {
    if frames == [] then
      Done(sweep, ())
    else
      var top := |frames| - 1;
      var (below, _) :- FrameRest(t, m, limit, frames[top], states[top], sweep);
      Rest(t, m, limit, frames[..top], states[..top], below)
  }

  // The stack discipline: each frame's checkpoint is of a state the ones above it were reached from.
  ghost predicate Stacked(m: Machine, generation: nat, frames: seq<Frame>, states: seq<MachineState>) {
    && |frames| == |states|
    && (forall s <- states :: Fits(m, s))
    && (forall i :: 0 <= i < |frames| ==> frames[i].checkpoint == Save(generation, states[i]))
    && (forall i :: 0 < i < |states| ==> Extends(states[i], states[i - 1]))
    && (forall i :: 0 <= i < |frames| ==> !frames[i].emitted ==> i == |frames| - 1 && frames[i].nextEdge == 0)
  }

  // Where the recognizer is while `frames` are open.
  ghost predicate At(m: Machine, s: MachineState, frames: seq<Frame>, states: seq<MachineState>)
    requires |frames| == |states|
  {
    Fits(m, s) &&
    (frames != [] ==> var top := |frames| - 1; Extends(s, states[top]) && (!frames[top].emitted ==> s == states[top]))
  }

  // ---------- One step of the stack ----------

  lemma RestTop(t: TokenTrie, m: Machine, limit: nat, frames: seq<Frame>, states: seq<MachineState>, sweep: Sweep)
    requires |frames| == |states| > 0 && (forall s <- states :: Fits(m, s)) && sweep.visited <= limit
    ensures var top := |frames| - 1;
            Fits(m, states[top]) &&
            var r := FrameRest(t, m, limit, frames[top], states[top], sweep);
            (r.Failed? ==> Rest(t, m, limit, frames, states, sweep) == r)
  {
    assert states[|frames| - 1] in states;
  }

  // Replacing what the top frame has to do by something equal changes nothing.
  lemma RestSame(t: TokenTrie, m: Machine, limit: nat, frames: seq<Frame>, states: seq<MachineState>, sweep: Sweep,
      frame: Frame, sweep': Sweep)
    requires |frames| == |states| > 0 && (forall s <- states :: Fits(m, s)) && sweep.visited <= limit
    requires sweep'.visited <= limit
    requires var top := |frames| - 1;
             Fits(m, states[top]) &&
             FrameRest(t, m, limit, frame, states[top], sweep') ==
               FrameRest(t, m, limit, frames[top], states[top], sweep)
    ensures Rest(t, m, limit, frames[|frames| - 1 := frame], states, sweep') == Rest(t, m, limit, frames, states, sweep)
  {
    assert frames[|frames| - 1 := frame][..|frames| - 1] == frames[..|frames| - 1];
  }

  // A finished top frame can be popped.
  lemma RestPop(t: TokenTrie, m: Machine, limit: nat, frames: seq<Frame>, states: seq<MachineState>, sweep: Sweep)
    requires |frames| == |states| > 0 && (forall s <- states :: Fits(m, s)) && sweep.visited <= limit
    requires var top := |frames| - 1;
             Fits(m, states[top]) && FrameRest(t, m, limit, frames[top], states[top], sweep) == Done(sweep, ())
    ensures (forall s <- states[..|frames| - 1] :: Fits(m, s))
    ensures Rest(t, m, limit, frames[..|frames| - 1], states[..|frames| - 1], sweep) ==
            Rest(t, m, limit, frames, states, sweep)
  {
    assert forall s <- states[..|frames| - 1] :: s in states;
  }

  // A new frame for a child does the child's walk first and then the rest.
  lemma RestPush(t: TokenTrie, m: Machine, limit: nat, frames: seq<Frame>, states: seq<MachineState>, sweep: Sweep,
      next: MachineState, child: Frame, advanced: Frame)
    requires |frames| == |states| > 0 && (forall s <- states :: Fits(m, s)) && sweep.visited < limit
    requires Fits(m, next) && !child.emitted && advanced.emitted && advanced.node < |t.nodes|
    requires var top := |frames| - 1;
             Fits(m, states[top]) &&
             FrameRest(t, m, limit, frames[top], states[top], sweep) ==
               (match WalkNode(t, m, limit, child.node, next, sweep.(visited := sweep.visited + 1))
                case Failed(at, error) => Failed(at, error)
                case Done(below, _) => WalkEdges(t, m, limit, advanced.node, advanced.nextEdge, states[top], below))
    ensures (forall s <- states + [next] :: Fits(m, s))
    ensures Rest(t, m, limit, frames[|frames| - 1 := advanced] + [child], states + [next],
            sweep.(visited := sweep.visited + 1))
         == Rest(t, m, limit, frames, states, sweep)
  {
    hide WalkNode, WalkEdges;
    var top := |frames| - 1;
    var open := frames[top := advanced];
    var all, states' := open + [child], states + [next];
    assert forall s <- states' :: s in states || s == next;
    assert all[..top + 1] == open && states'[..top + 1] == states;
    assert open[..top] == frames[..top];
  }

  // ---------- The traversal ----------

  method SetBits(destination: array<bv32>, ids: seq<nat>) returns (error: Option<RuntimeError>)
    modifies destination
    ensures error.None? ==> SetMaskBits(old(destination[..]), ids) == Some(destination[..])
    ensures error.Some? ==> SetMaskBits(old(destination[..]), ids) == None && error.value == InternalInvariant
  {
    for k := 0 to |ids|
      invariant SetMaskBits(destination[..], ids[k..]) == SetMaskBits(old(destination[..]), ids)
    {
      assert ids[k..][1..] == ids[k + 1..];
      var id := ids[k];
      if id / 32 >= destination.Length {
        return Some(InternalInvariant);
      }
      ghost var before := destination[..];
      destination[id / 32] := WithBit(destination[id / 32], id % 32);
      assert destination[..] == before[id / 32 := WithBit(before[id / 32], id % 32)];
    }
    error := None;
  }

  // The node's own ids, if the recognizer is live there.
  method EmitNode(recognizer: RecognizerState, t: TokenTrie, node: nat, destination: array<bv32>, ghost visited: nat)
    returns (error: Option<RuntimeError>)
    requires recognizer.Valid() && node < |t.nodes|
    modifies destination
    ensures recognizer.Valid() && recognizer.Abs() == old(recognizer.Abs())
    ensures var r := Emit(t, recognizer.Settings(), node, old(recognizer.Abs()), Sweep(old(destination[..]), visited));
            (r.Done? ==> error == None && r.state == Sweep(destination[..], visited))
              && (r.Failed? ==> error == Some(r.error))
  {
    hide IsLive, SetMaskBits;
    var live := recognizer.Live();
    if !live {
      return None;
    }
    var start := t.nodes[node].tokenStart;
    if start + t.nodes[node].tokenLen > |t.terminalIds| {
      return Some(InternalInvariant);
    }
    error := SetBits(destination, t.terminalIds[start..start + t.nodes[node].tokenLen]);
  }

  lemma StackedTop(m: Machine, generation: nat, frames: seq<Frame>, states: seq<MachineState>, s: MachineState)
    requires Stacked(m, generation, frames, states) && frames != [] && At(m, s, frames, states)
    ensures var top := |frames| - 1;
            && |states| == |frames| && Fits(m, states[top]) && Extends(s, states[top])
            && frames[top].checkpoint == Save(generation, states[top])
            && (!frames[top].emitted ==> frames[top].nextEdge == 0 && s == states[top])
            && (forall s <- states :: Fits(m, s))
  {
  }

  // Marking the top frame, or moving it to a later edge, keeps the discipline.
  lemma StackedAdvance(m: Machine, generation: nat, frames: seq<Frame>, states: seq<MachineState>, s: MachineState,
      frame: Frame)
    requires Stacked(m, generation, frames, states) && frames != [] && At(m, s, frames, states)
    requires frame.emitted && frame.checkpoint == frames[|frames| - 1].checkpoint
    ensures var open := frames[|frames| - 1 := frame];
            Stacked(m, generation, open, states) && At(m, s, open, states) && At(m, states[|states| - 1], open, states)
  {
    assert states[|states| - 1] in states;
    ExtendsItself(m, states[|states| - 1]);
  }

  lemma StackedPop(m: Machine, generation: nat, frames: seq<Frame>, states: seq<MachineState>)
    requires Stacked(m, generation, frames, states) && frames != []
    ensures var top := |frames| - 1;
            |states| == |frames| && Stacked(m, generation, frames[..top], states[..top])
              && At(m, states[top], frames[..top], states[..top])
  {
    var top := |frames| - 1;
    assert states[top] in states && forall s <- states[..top] :: s in states;
  }

  lemma StackedPush(m: Machine, generation: nat, frames: seq<Frame>, states: seq<MachineState>, next: MachineState,
      node: nat)
    requires Stacked(m, generation, frames, states) && frames != [] && frames[|frames| - 1].emitted
    requires Fits(m, next) && |states| == |frames| && Extends(next, states[|states| - 1])
    ensures var child := Frame(node, 0, false, Save(generation, next));
            Stacked(m, generation, frames + [child], states + [next]) && At(m, next, frames + [child], states + [next])
  {
    ExtendsItself(m, next);
    assert forall s <- states + [next] :: s in states || s == next;
  }

  lemma StackedStart(t: TokenTrie, m: Machine, limit: nat, generation: nat, s: MachineState, sweep: Sweep)
    requires Fits(m, s) && sweep.visited <= limit
    ensures var root := Frame(0, 0, false, Save(generation, s));
            Stacked(m, generation, [root], [s]) && At(m, s, [root], [s])
            && Rest(t, m, limit, [root], [s], sweep) == WalkNode(t, m, limit, 0, s, sweep)
  {
    ExtendsItself(m, s);
    hide WalkNode, Save, Extends;
    RestOne(t, m, limit, Frame(0, 0, false, Save(generation, s)), s, sweep);
  }

  lemma RestOne(t: TokenTrie, m: Machine, limit: nat, frame: Frame, s: MachineState, sweep: Sweep)
    requires Fits(m, s) && sweep.visited <= limit
    ensures Rest(t, m, limit, [frame], [s], sweep) == FrameRest(t, m, limit, frame, s, sweep)
  {
    hide FrameRest, Fits;
    var frames, states := [frame], [s];
    var r := FrameRest(t, m, limit, frames[0], states[0], sweep);
    if r.Done? {
      RestNothing(t, m, limit, frames[..0], states[..0], r.state);
      assert r.value == ();
    }
    assert |frames| - 1 == 0;
  }

  // Emitting turns the walk of a node into the walk of its edges.
  lemma EmitStep(t: TokenTrie, m: Machine, limit: nat, frame: Frame, s: MachineState, sweep: Sweep)
    requires Fits(m, s) && sweep.visited <= limit && !frame.emitted && frame.nextEdge == 0
    ensures frame.node >= |t.nodes| ==> FrameRest(t, m, limit, frame, s, sweep) == Failed(sweep, InternalInvariant)
    ensures frame.node < |t.nodes| ==>
              var r := Emit(t, m, frame.node, s, sweep);
              && (r.Failed? ==> FrameRest(t, m, limit, frame, s, sweep) == r)
              && (r.Done? ==>
                 FrameRest(t, m, limit, frame.(emitted := true), s, r.state) == FrameRest(t, m, limit, frame, s, sweep))
  {
    hide Emit, WalkEdges;
  }

  // The next edge of an emitted frame.
  lemma EdgeStep(t: TokenTrie, m: Machine, limit: nat, frame: Frame, s: MachineState, sweep: Sweep)
    requires Fits(m, s) && sweep.visited <= limit && frame.emitted && frame.node < |t.nodes|
    ensures var node := t.nodes[frame.node];
            var index := node.edgeStart + frame.nextEdge;
            var rest := FrameRest(t, m, limit, frame, s, sweep);
            var advanced := frame.(nextEdge := frame.nextEdge + 1);
            var counted := sweep.(visited := sweep.visited + 1);
            && (frame.nextEdge >= node.edgeLen ==> rest == Done(sweep, ()))
            && (frame.nextEdge < node.edgeLen && index >= |t.edges| ==> rest == Failed(sweep, InternalInvariant))
            && (frame.nextEdge < node.edgeLen && index < |t.edges| && sweep.visited + 1 > limit ==>
                  rest == Failed(sweep, LimitExceeded(MaskTraversal, sweep.visited + 1, limit)))
            && (frame.nextEdge < node.edgeLen && index < |t.edges| && sweep.visited + 1 <= limit ==>
                  match TryAdvance(m, s, [t.edges[index].byte])
                  case Failed(_, error) => rest == Failed(sweep, error)
                  case Done(next, answer) =>
                    if answer == Rejected then
                      rest == FrameRest(t, m, limit, advanced, s, counted)
                    else
                      rest == match WalkNode(t, m, limit, t.edges[index].child, next, counted)
                              case Failed(at, error) => Failed(at, error)
                              case Done(below, _) => WalkEdges(t, m, limit, frame.node, frame.nextEdge + 1, s, below))
  {
    hide TryAdvance, WalkNode;
  }

  // Go back to the checkpointed state and try one byte from there.
  method TryEdge(recognizer: RecognizerState, checkpoint: RecognizerCheckpoint, byte: Byte, ghost s: MachineState)
    returns (answer: Advance, error: Option<RuntimeError>)
    requires recognizer.Valid() && Fits(recognizer.Settings(), s) && Extends(recognizer.Abs(), s)
    requires checkpoint == Save(recognizer.Generation(), s)
    modifies recognizer.Object()
    ensures recognizer.Valid() && Extends(recognizer.Abs(), s)
    ensures var r := TryAdvance(recognizer.Settings(), s, [byte]);
            recognizer.Ran(r, error) && (r.Done? ==> answer == r.value)
    ensures error.Some? || answer == Rejected ==> recognizer.Abs() == s
  {
    hide StepByte, Consume, TryAdvance, IsAccepting, Extends, RestoreFrom, Save, Fits;
    RestoreExact(recognizer.Settings(), recognizer.Generation(), s, recognizer.Abs());
    error := recognizer.Restore(checkpoint);
    AllOrNothing(recognizer.Settings(), s, [byte]);
    ExtendsItself(recognizer.Settings(), s);
    answer, error := recognizer.TryAdvanceBytes([byte]);
  }

  // Go back to the checkpointed state.
  method GoBack(recognizer: RecognizerState, checkpoint: RecognizerCheckpoint, ghost s: MachineState)
    requires recognizer.Valid() && Fits(recognizer.Settings(), s) && Extends(recognizer.Abs(), s)
    requires checkpoint == Save(recognizer.Generation(), s)
    modifies recognizer.Object()
    ensures recognizer.Valid() && recognizer.Abs() == s
  {
    hide StepByte, Consume, TryAdvance, IsAccepting, Extends, RestoreFrom, Save, Fits;
    RestoreExact(recognizer.Settings(), recognizer.Generation(), s, recognizer.Abs());
    var error := recognizer.Restore(checkpoint);
  }

  // What holds between two steps: the frames keep their discipline over the root state `s0`.
  ghost predicate Walking(m: Machine, generation: nat, s0: MachineState, s: MachineState, frames: seq<Frame>,
      states: seq<MachineState>)
  {
    && Fits(m, s) && Extends(s, s0) && |frames| == |states| && Stacked(m, generation, frames, states)
    && At(m, s, frames, states) && (states != [] ==> states[0] == s0)
  }

  // The ids of the top frame's node, once.
  method EmitTop(recognizer: RecognizerState, t: TokenTrie, destination: array<bv32>, ghost limit: nat, visited: nat,
      frames: seq<Frame>, ghost s0: MachineState, ghost states: seq<MachineState>)
    returns (open: seq<Frame>, error: Option<RuntimeError>)
    requires recognizer.Valid() && frames != [] && frames[|frames| - 1].node < |t.nodes| && visited <= limit
    requires Walking(recognizer.Settings(), recognizer.Generation(), s0, recognizer.Abs(), frames, states)
    requires forall s <- states :: Fits(recognizer.Settings(), s)
    modifies destination
    ensures recognizer.Valid() && recognizer.Abs() == old(recognizer.Abs())
    ensures var m := recognizer.Settings();
            var was := Rest(t, m, limit, frames, states, Sweep(old(destination[..]), visited));
            if error.Some? then was.Failed? && was.error == error.value
            else
              && |open| == |frames| && open[|open| - 1].emitted && open[|open| - 1].node == frames[|frames| - 1].node
              && Walking(m, recognizer.Generation(), s0, recognizer.Abs(), open, states)
              && Rest(t, m, limit, open, states, Sweep(destination[..], visited)) == was
  {
    hide StepByte, Consume, TryAdvance, IsLive, IsAccepting, Extends, RestoreFrom, Save, Fits;
    hide WalkNode, WalkEdges, Emit, Rest, FrameRest, Stacked, At, SetMaskBits, RecognizerState.Abs,
      RecognizerState.Settings;
    ghost var m, generation := recognizer.Settings(), recognizer.Generation();
    var top := |frames| - 1;
    var frame := frames[top];
    open, error := frames, None;
    StackedTop(m, generation, frames, states, recognizer.Abs());
    if !frame.emitted {
      ghost var before := Sweep(destination[..], visited);
      RestTop(t, m, limit, frames, states, before);
      EmitStep(t, m, limit, frame, states[top], before);
      error := EmitNode(recognizer, t, frame.node, destination, visited);
      if error.None? {
        frame := frame.(emitted := true);
        RestSame(t, m, limit, frames, states, before, frame, Sweep(destination[..], visited));
        StackedAdvance(m, generation, frames, states, recognizer.Abs(), frame);
        open := frames[top := frame];
      }
    }
  }

  // The next edge of the top frame: back from the node when there is none, on to the child when its byte is taken.
  method VisitEdge(recognizer: RecognizerState, t: TokenTrie, ghost mask: seq<bv32>, limit: nat, visited: nat,
      frames: seq<Frame>, ghost s0: MachineState, ghost states: seq<MachineState>)
    returns (open: seq<Frame>, ghost states': seq<MachineState>, visited': nat, error: Option<RuntimeError>)
    requires recognizer.Valid() && frames != [] && visited <= limit
    requires frames[|frames| - 1].emitted && frames[|frames| - 1].node < |t.nodes|
    requires Walking(recognizer.Settings(), recognizer.Generation(), s0, recognizer.Abs(), frames, states)
    requires forall s <- states :: Fits(recognizer.Settings(), s)
    modifies recognizer.Object()
    ensures recognizer.Valid() && Extends(recognizer.Abs(), s0)
    ensures var m := recognizer.Settings();
            var was := Rest(t, m, limit, frames, states, Sweep(mask, visited));
            if error.Some? then was.Failed? && was.error == error.value
            else
              && visited <= visited' <= limit && (visited == visited' ==> |open| < |frames|)
              && Walking(m, recognizer.Generation(), s0, recognizer.Abs(), open, states')
              && (forall s <- states' :: Fits(m, s))
              && Rest(t, m, limit, open, states', Sweep(mask, visited')) == was
  {
    hide StepByte, Consume, TryAdvance, IsLive, IsAccepting, Extends, RestoreFrom, Save, Fits;
    hide WalkNode, WalkEdges, Rest, FrameRest, Stacked, At, RecognizerState.Abs, RecognizerState.Settings;
    ghost var m, generation, sweep, current := recognizer.Settings(), recognizer.Generation(), Sweep(mask, visited),
          recognizer.Abs();
    var top := |frames| - 1;
    var frame := frames[top];
    open, states', visited', error := frames, states, visited, None;
    StackedTop(m, generation, frames, states, current);
    StackedOnRoot(m, generation, frames, states);
    assert states[top] in states;
    RestTop(t, m, limit, frames, states, sweep);
    EdgeStep(t, m, limit, frame, states[top], sweep);
    if frame.nextEdge >= t.nodes[frame.node].edgeLen {
      GoBack(recognizer, frame.checkpoint, states[top]);
      RestPop(t, m, limit, frames, states, sweep);
      StackedPop(m, generation, frames, states);
      open, states' := frames[..top], states[..top];
      return;
    }
    var index := t.nodes[frame.node].edgeStart + frame.nextEdge;
    if index >= |t.edges| {
      error := Some(InternalInvariant);
      return;
    }
    var observed := visited + 1;
    if observed > limit {
      error := Some(LimitExceeded(MaskTraversal, observed, limit));
      return;
    }
    var edge := t.edges[index];
    var answer;
    answer, error := TryEdge(recognizer, frame.checkpoint, edge.byte, states[top]);
    ExtendsTransitive(recognizer.Abs(), states[top], s0);
    if error.Some? {
      return;
    }
    visited' := observed;
    var advanced := frame.(nextEdge := frame.nextEdge + 1);
    StackedAdvance(m, generation, frames, states, current, advanced);
    open := frames[top := advanced];
    if answer == Rejected {
      RestSame(t, m, limit, frames, states, sweep, advanced, Sweep(mask, visited'));
    } else {
      ghost var next := recognizer.Abs();
      var child := Frame(edge.child, 0, false, recognizer.Checkpoint());
      RestPush(t, m, limit, frames, states, sweep, next, child, advanced);
      StackedPush(m, generation, open, states, next, edge.child);
      open, states' := open + [child], states + [next];
    }
  }

  method Traverse(recognizer: RecognizerState, t: TokenTrie, destination: array<bv32>, limits: RuntimeLimits)
    returns (error: Option<RuntimeError>)
    requires recognizer.Valid()
    modifies recognizer.Object(), destination
    ensures recognizer.Valid() && Extends(recognizer.Abs(), old(recognizer.Abs()))
    ensures var r :=
            WalkNode(t, recognizer.Settings(), limits.maxMaskTrieEdges, 0, old(recognizer.Abs()),
            Sweep(old(destination[..]), 0));
            (r.Done? ==> error == None && r.state.mask == destination[..]) && (r.Failed? ==> error == Some(r.error))
  {
    hide StepByte, Consume, TryAdvance, IsLive, IsAccepting, Extends, RestoreFrom, Save, Fits;
    hide WalkNode, WalkEdges, Emit, Rest, FrameRest, Stacked, At, SetMaskBits, RecognizerState.Abs,
      RecognizerState.Settings;
    ghost var m, s0, was := recognizer.Settings(), recognizer.Abs(), destination[..];
    var limit := limits.maxMaskTrieEdges;
    var visited := 0;
    var frames := [Frame(0, 0, false, recognizer.Checkpoint())];
    ghost var states := [s0];
    StackedStart(t, m, limit, recognizer.Generation(), s0, Sweep(was, 0));
    ExtendsItself(m, s0);
    while frames != []
      invariant visited <= limit && Extends(recognizer.Abs(), s0) && |frames| == |states|
      invariant Walking(m, recognizer.Generation(), s0, recognizer.Abs(), frames, states)
      invariant forall s <- states :: Fits(m, s)
      invariant Rest(t, m, limit, frames, states, Sweep(destination[..], visited)) ==
                WalkNode(t, m, limit, 0, s0, Sweep(was, 0))
      decreases limit - visited, |frames|
    {
      if frames[|frames| - 1].node >= |t.nodes| {
        RestTop(t, m, limit, frames, states, Sweep(destination[..], visited));
        NodeMissing(t, m, limit, frames[|frames| - 1], states[|frames| - 1], Sweep(destination[..], visited));
        return Some(InternalInvariant);
      }
      var open: seq<Frame>;
      open, error := EmitTop(recognizer, t, destination, limit, visited, frames, s0, states);
      if error.Some? {
        return;
      }
      frames, states, visited, error := VisitEdge(recognizer, t, destination[..], limit, visited, open, s0, states);
      if error.Some? {
        return;
      }
    }
    RestNothing(t, m, limit, frames, states, Sweep(destination[..], visited));
    error := None;
  }

  lemma RestNothing(t: TokenTrie, m: Machine, limit: nat, frames: seq<Frame>, states: seq<MachineState>, sweep: Sweep)
    requires frames == [] && states == [] && sweep.visited <= limit
    ensures Rest(t, m, limit, frames, states, sweep) == Done(sweep, ())
  {
  }

  lemma NodeMissing(t: TokenTrie, m: Machine, limit: nat, frame: Frame, s: MachineState, sweep: Sweep)
    requires Fits(m, s) && sweep.visited <= limit && frame.node >= |t.nodes|
    ensures FrameRest(t, m, limit, frame, s, sweep) == Failed(sweep, InternalInvariant)
  {
  }

  // Every open state was reached from the root's.
  lemma StackedOnRoot(m: Machine, generation: nat, frames: seq<Frame>, states: seq<MachineState>)
    requires Stacked(m, generation, frames, states) && states != []
    ensures forall s <- states :: Extends(s, states[0])
  {
    var k := 1;
    assert states[0] in states;
    ExtendsItself(m, states[0]);
    while k < |states|
      invariant 1 <= k <= |states| && forall i :: 0 <= i < k ==> Extends(states[i], states[0])
    {
      ExtendsTransitive(states[k], states[k - 1], states[0]);
      k := k + 1;
    }
  }

  // The whole fill: the mask is the walk's, the errors are the walk's, and the recognizer is where it was.
  method FillStructuralMask(recognizer: RecognizerState, vocabulary: DerivedVocabulary, destination: array<bv32>,
      limits: RuntimeLimits)
    returns (error: Option<RuntimeError>)
    requires recognizer.Valid()
    modifies recognizer.Object(), destination
    ensures recognizer.Valid() && recognizer.Abs() == old(recognizer.Abs())
    ensures var r :=
            MaskFrom(vocabulary, recognizer.Settings(), limits.maxMaskTrieEdges, old(recognizer.Abs()),
            old(destination[..]));
            (r.Done? ==> error == None && r.state.mask == destination[..]) && (r.Failed? ==> error == Some(r.error))
  {
    hide StepByte, Consume, TryAdvance, IsLive, IsAccepting, Extends, RestoreFrom, Save, Fits, WalkNode;
    var root := recognizer.Checkpoint();
    ghost var s0 := recognizer.Abs();
    ExtendsItself(recognizer.Settings(), s0);
    error := None;
    var accepting := recognizer.Accepting();
    if accepting {
      error := SetBits(destination, [vocabulary.eosTokenId]);
      OneBit(old(destination[..]), vocabulary.eosTokenId);
    }
    if error.None? {
      error := Traverse(recognizer, vocabulary.trie, destination, limits);
    }
    RestoreExact(recognizer.Settings(), recognizer.Generation(), s0, recognizer.Abs());
    var restored := recognizer.Restore(root);
    if restored.Some? {
      error := restored;
    }
  }

  lemma OneBit(mask: seq<bv32>, id: nat)
    ensures SetMaskBits(mask, [id]) == SetMaskBit(mask, id)
  {
    if SetMaskBit(mask, id).Some? {
      assert SetMaskBits(SetMaskBit(mask, id).value, []) == SetMaskBit(mask, id);
    }
  }
}
