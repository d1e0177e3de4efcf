/**
 The guide as it runs.  Whatever is done to it, it equals a fresh guide fed the tokens it has committed; its
 history holds the checkpoints of the last prefixes, and its cached mask is the mask of its state.
 */
module GuideObjects {
  import opened Grammars
  import opened Runtime
  import opened Recognizers
  import opened Tries
  import opened MaskBits
  import opened Masks
  import opened MaskTraversals
  import opened Indexes
  import opened Guides

  datatype GuideRuntime = IndexRuntime(index: Index, state: nat) | StructuralRuntime(recognizer: RecognizerState)

  class Guide {
    ghost const setup: Setup
    var runtime: GuideRuntime
    const vocabulary: Option<DerivedVocabulary>
    const eosTokenId: nat
    const vocabSize: nat
    const maskWords: nat
    const initial: GuideCheckpoint
    var history: seq<GuideCheckpoint>
    const maxRollback: nat
    var finished: bool
    var committedTokenIds: seq<nat>
    var committedBytes: Word
    const limits: RuntimeLimits
    var cachedMask: Option<seq<bv32>>

    ghost function Repr(): set<object>
      reads this`runtime
    {
      {this} + if runtime.StructuralRuntime? then {runtime.recognizer.Object()} else {}
    }

    ghost function Generation(): nat
      reads this`runtime
    {
      if runtime.StructuralRuntime? then runtime.recognizer.Generation() else 0
    }

    function Standing(): Place
      reads this`runtime, if runtime.StructuralRuntime? then {runtime.recognizer.Object()} else {}
    {
      match runtime
      case IndexRuntime(_, state) => IndexPlace(state)
      case StructuralRuntime(recognizer) => MachinePlace(recognizer.Abs())
    }

    function Here(): View
      reads this, if runtime.StructuralRuntime? then {runtime.recognizer.Object()} else {}
    {
      View(Standing(), finished, committedTokenIds, committedBytes)
    }

    // The guide runs the backend it was made for.
    ghost predicate Wired()
      reads this`runtime
    {
      && WellSet(setup)
      && setup.eos == eosTokenId && setup.width == vocabSize && setup.limits == limits
      && maskWords == WordsFor(vocabSize) && initial == SaveView(Generation(), Fresh(setup))
      && match (setup.source, runtime)
         case (IndexSource(index), IndexRuntime(other, _)) => vocabulary.None? && other == index
         case (MachineSource(m, _, v), StructuralRuntime(r)) => vocabulary == Some(v) && r.Settings() == m
         case _ => false
    }

    ghost predicate Valid()
      reads this, if runtime.StructuralRuntime? then {runtime.recognizer.Object()} else {}
      ensures Valid() ==> WellSet(setup) && Settled(setup.source, Standing())
    {
      && Wired()
      && Replay(setup, committedTokenIds) == Done(Here(), ())
      && |history| <= maxRollback && HistoryFor(setup, Generation(), committedTokenIds, history)
      && (cachedMask.Some? ==> MaskIs(setup, Here(), cachedMask.value))
    }

    constructor OfIndex(index: Index, width: nat, maxRollback: nat, limits: RuntimeLimits)
      requires forall s: nat, id: nat :: id in index.Row(s) ==> id < width
      ensures Valid() && Repr() == {this} && setup == Setup(IndexSource(index), index.eosTokenId, width, limits)
      ensures committedTokenIds == [] && history == [] && this.maxRollback == maxRollback
    {
      setup := Setup(IndexSource(index), index.eosTokenId, width, limits);
      runtime := IndexRuntime(index, index.initialState);
      vocabulary := None;
      eosTokenId, vocabSize, maskWords := index.eosTokenId, width, WordsFor(width);
      initial := IndexCheckpoint(index.initialState, 0, 0, false);
      history, this.maxRollback, finished := [], maxRollback, false;
      committedTokenIds, committedBytes, this.limits, cachedMask := [], [], limits, None;
    }

    constructor OfRecognizer(recognizer: RecognizerState, vocabulary: DerivedVocabulary, maxRollback: nat,
        limits: RuntimeLimits)
      requires recognizer.Valid() && exists tokens :: DerivedFrom(vocabulary, tokens, vocabulary.eosTokenId)
      ensures Valid() && Repr() == {this, recognizer.Object()}
      ensures setup == Setup(MachineSource(recognizer.Settings(), recognizer.Abs(), vocabulary), vocabulary.eosTokenId,
                             vocabulary.vocabSize, limits)
      ensures committedTokenIds == [] && history == [] && this.maxRollback == maxRollback
    {
      setup := Setup(MachineSource(recognizer.Settings(), recognizer.Abs(), vocabulary), vocabulary.eosTokenId,
                     vocabulary.vocabSize, limits);
      runtime := StructuralRuntime(recognizer);
      this.vocabulary := Some(vocabulary);
      eosTokenId, vocabSize, maskWords := vocabulary.eosTokenId, vocabulary.vocabSize, vocabulary.maskWords;
      initial := StructuralCheckpoint(recognizer.Checkpoint(), 0, 0, false);
      history, this.maxRollback, finished := [], maxRollback, false;
      committedTokenIds, committedBytes, this.limits, cachedMask := [], [], limits, None;
    }

    // A guide is made only within the checkpoint limit.
    static method FromIndex(index: Index, width: nat, maxRollback: nat, limits: RuntimeLimits)
      returns (guide: Guide?, error: Option<RuntimeError>)
      requires forall s: nat, id: nat :: id in index.Row(s) ==> id < width
      ensures error == Exceeded(CheckpointHistory, maxRollback, limits.maxCheckpointHistory)
      ensures error.None? <==> guide != null
      ensures guide != null ==> guide.Valid() && fresh(guide) && guide.Here() == Fresh(guide.setup)
    {
      if maxRollback > limits.maxCheckpointHistory {
        return null, Some(LimitExceeded(CheckpointHistory, maxRollback, limits.maxCheckpointHistory));
      }
      guide := new Guide.OfIndex(index, width, maxRollback, limits);
      error := None;
    }

    static method FromCompiled(recognizer: RecognizerState, vocabulary: DerivedVocabulary, maxRollback: nat,
        limits: RuntimeLimits)
      returns (guide: Guide?, error: Option<RuntimeError>)
      requires recognizer.Valid() && exists tokens :: DerivedFrom(vocabulary, tokens, vocabulary.eosTokenId)
      ensures error == Exceeded(CheckpointHistory, maxRollback, limits.maxCheckpointHistory)
      ensures error.None? <==> guide != null
      ensures guide != null ==> guide.Valid() && fresh(guide) && guide.Here() == Fresh(guide.setup)
    {
      if maxRollback > limits.maxCheckpointHistory {
        return null, Some(LimitExceeded(CheckpointHistory, maxRollback, limits.maxCheckpointHistory));
      }
      guide := new Guide.OfRecognizer(recognizer, vocabulary, maxRollback, limits);
      error := None;
    }

    // ---------- Queries ----------

    method IsAccepting() returns (accepting: bool)
      requires Valid()
      ensures accepting == (Settled(setup.source, Standing()) && Guides.Accepts(setup, Here()))
    {
      hide Replay, Recognizers.IsAccepting, HistoryFor, MaskIs, WellSet, SaveView, Fresh, Fits;
      if finished {
        return false;
      }
      match runtime
      case IndexRuntime(index, state) => accepting := state in index.finalStates;
      case StructuralRuntime(recognizer) => accepting := recognizer.Accepting();
    }

    function AllowedRollback(): nat
      reads this
    {
      |history|
    }

    function Checkpoint(): GuideCheckpoint
      reads this, if runtime.StructuralRuntime? then {runtime.recognizer.Object()} else {}
      ensures Checkpoint() == SaveView(Generation(), Here())
    {
      match runtime
      case IndexRuntime(_, state) => IndexCheckpoint(state, |committedTokenIds|, |committedBytes|, finished)
      case StructuralRuntime(recognizer) =>
        StructuralCheckpoint(recognizer.Checkpoint(), |committedTokenIds|, |committedBytes|, finished)
    }

    // ---------- Changing the guide ----------

    method RetainCheckpoint(checkpoint: GuideCheckpoint)
      modifies this`history
      ensures |old(history)| <= maxRollback ==> history == Retain(old(history), checkpoint, maxRollback)
    {
      if maxRollback == 0 {
        return;
      }
      var kept := history;
      while |kept| >= maxRollback
        invariant |kept| <= |history| && kept == history[|history| - |kept|..]
        invariant |history| < maxRollback ==> kept == history
        invariant |kept| == |history| || |kept| >= maxRollback - 1
      {
        kept := kept[1..];
      }
      history := kept + [checkpoint];
    }

    // Move the backend over a token that is not the end of the sequence.
    method MoveRuntime(token: nat) returns (bytes: Word, error: Option<RuntimeError>)
      requires Wired() && Settled(setup.source, Standing()) && token != eosTokenId
      modifies this`runtime, Repr() - {this}
      ensures Repr() == old(Repr()) && Generation() == old(Generation()) && Wired()
      ensures var r := Move(setup.source, old(Standing()), token);
              && Standing() == r.state && error == (if r.Failed? then Some(r.error) else None)
                 && (r.Done? ==> bytes == r.value)
    {
      hide Replay, TryAdvance, WellSet, Fresh, SaveView, Extends;
      bytes := [];
      match runtime {
        case IndexRuntime(index, state) =>
          var next := index.NextState(state, token);
          if next.None? {
            return [], Some(TokenNotAllowed(token));
          }
          runtime := IndexRuntime(index, next.value);
          error := None;
        case StructuralRuntime(recognizer) =>
          var shared := vocabulary.value.SharedBytes(token);
          if shared.None? {
            return [], Some(UnknownTokenId(token));
          }
          bytes := shared.value;
          ghost var at := recognizer.Abs();
          AllOrNothing(setup.source.machine, at, bytes);
          var answer;
          answer, error := recognizer.TryAdvanceBytes(bytes);
          if error.None? && answer == Rejected {
            error := Some(TokenNotAllowed(token));
          }
      }
    }

    // Record a token that the backend has taken.
    method Commit(token: nat, bytes: Word, ends: bool, before: GuideCheckpoint)
      modifies this`history, this`finished, this`committedBytes, this`committedTokenIds, this`cachedMask
      ensures |old(history)| <= maxRollback ==> history == Retain(old(history), before, maxRollback)
      ensures finished == ends && committedBytes == old(committedBytes) + bytes
      ensures committedTokenIds == old(committedTokenIds) + [token] && cachedMask == None
    {
      RetainCheckpoint(before);
      finished := ends;
      committedBytes := committedBytes + bytes;
      committedTokenIds := committedTokenIds + [token];
      cachedMask := None;
    }

    lemma ValidParts()
      requires Valid()
      ensures Wired() && WellSet(setup) && Replay(setup, committedTokenIds) == Done(Here(), ())
      ensures |history| <= maxRollback && HistoryFor(setup, Generation(), committedTokenIds, history)
      ensures setup.eos == eosTokenId && setup.limits == limits && Settled(setup.source, Standing())
      ensures cachedMask.Some? ==> MaskIs(setup, Here(), cachedMask.value)
    {
    }

    lemma ValidFrom()
      requires Wired() && |history| <= maxRollback && WellSet(setup)
      requires Replay(setup, committedTokenIds) == Done(Here(), ())
      requires cachedMask.Some? ==> Settled(setup.source, Standing()) && MaskIs(setup, Here(), cachedMask.value)
      requires HistoryFor(setup, Generation(), committedTokenIds, history)
      ensures Valid()
    {
    }

    // One token: everything happens, or nothing does.
    method Advance(token: nat) returns (error: Option<RuntimeError>)
      requires Valid()
      modifies Repr()
      ensures Valid() && Repr() == old(Repr())
      ensures var r := Take(setup, old(Here()), token);
              Here() == r.state && error == if r.Failed? then Some(r.error) else None
      ensures error.Some? ==> history == old(history) && cachedMask == old(cachedMask)
      ensures error.None? ==> committedTokenIds == old(committedTokenIds) + [token] && cachedMask == None
      ensures error.None? ==> history == Retain(old(history), old(Checkpoint()), maxRollback)
    {
      hide Replay, HistoryFor, MaskIs, WellSet, Move, Retain, Fresh, Settled, Guides.Accepts, SaveView, Wired, Valid;
      hide RecognizerState.Abs, RecognizerState.Settings, RecognizerState.Generation, RecognizerState.Checkpoint;
      ghost var view, tokens, generation := Here(), committedTokenIds, Generation();
      ValidParts();
      if finished {
        return Some(GuideFinished);
      }
      var count := |committedTokenIds| + 1;
      if count > limits.maxCommittedTokens {
        return Some(LimitExceeded(CommittedTokens, count, limits.maxCommittedTokens));
      }
      var before := Checkpoint();
      ReplayMore(setup, tokens, token);
      HistoryGrows(setup, generation, tokens, history, token, maxRollback);
      if token == eosTokenId {
        var accepting := IsAccepting();
        if !accepting {
          return Some(EosNotAccepting);
        }
        Commit(token, [], true, before);
        error := None;
      } else {
        var bytes;
        bytes, error := MoveRuntime(token);
        if error.None? {
          Commit(token, bytes, false, before);
        }
      }
      assert view.bytes + [] == view.bytes;
      assert error.None? ==> Replay(setup, committedTokenIds).value == ();
      ValidFrom();
    }

    // Put the backend and the committed tokens back where the checkpoint was taken.
    method RestoreGuide(checkpoint: GuideCheckpoint) returns (error: Option<RuntimeError>)
      modifies this`runtime, this`finished, this`committedTokenIds, this`committedBytes, Repr() - {this}
      ensures Repr() == old(Repr()) && Generation() == old(Generation()) && (old(Wired()) ==> Wired())
      ensures var r := RestoreView(Generation(), old(Here()), checkpoint);
              Here() == r.state && error == if r.Failed? then Some(r.error) else None
    {
      hide WellSet, RestoreFrom, Fresh, SaveView;
      match (runtime, checkpoint)
      case (IndexRuntime(index, _), IndexCheckpoint(saved, tokens, bytes, ended)) =>
        runtime := IndexRuntime(index, saved);
        committedTokenIds := Truncate(committedTokenIds, tokens);
        committedBytes := Truncate(committedBytes, bytes);
        finished := ended;
        error := None;
      case (StructuralRuntime(recognizer), StructuralCheckpoint(saved, tokens, bytes, ended)) =>
        error := recognizer.Restore(saved);
        if error.Some? {
          return;
        }
        committedTokenIds := Truncate(committedTokenIds, tokens);
        committedBytes := Truncate(committedBytes, bytes);
        finished := ended;
      case _ => error := Some(InternalInvariant);
    }

    // Undo exactly the last `count` tokens.
    method Rollback(count: nat) returns (error: Option<RuntimeError>)
      requires Valid()
      modifies Repr()
      ensures Valid() && Repr() == old(Repr())
      ensures error == if count > |old(history)| then Some(RollbackUnavailable(count, |old(history)|)) else None
      ensures error.Some? ==> Here() == old(Here()) && history == old(history)
      ensures error.None? ==> history == old(history)[..|old(history)| - count]
      ensures error.None? ==> count <= |old(committedTokenIds)|
                              && committedTokenIds == old(committedTokenIds)[..|old(committedTokenIds)| - count]
    {
      hide Replay, HistoryFor, MaskIs, WellSet, Fresh, SaveView, RestoreView, Settled, Wired, Valid;
      hide RecognizerState.Abs, RecognizerState.Settings, RecognizerState.Generation, RecognizerState.Checkpoint;
      ValidParts();
      HistoryLength(setup, Generation(), committedTokenIds, history);
      if count == 0 {
        AllTaken(committedTokenIds);
        AllTaken(history);
        return None;
      }
      if count > |history| {
        return Some(RollbackUnavailable(count, |history|));
      }
      ghost var tokens, entries := committedTokenIds, history;
      var target := history[|history| - count];
      var left: nat := count;
      while left > 0
        invariant left <= count && history == entries[..|entries| - (count - left)]
        invariant left < count ==> target == entries[|entries| - (count - left)]
        modifies this`history
      {
        target := history[|history| - 1];
        history := history[..|history| - 1];
        left := left - 1;
      }
      HistoryEntry(setup, Generation(), tokens, entries, count);
      HistoryShrinks(setup, Generation(), tokens, entries, count);
      RestorePrefix(setup, Generation(), tokens, |tokens| - count);
      ReplayTokens(setup, tokens[..|tokens| - count]);
      ReplaySettled(setup, tokens[..|tokens| - count]);
      assert Replay(setup, tokens[..|tokens| - count]).value == ();
      error := RestoreGuide(target);
      cachedMask := None;
      ValidFrom();
    }

    // Back to the start: the tokens, the history and the mask are forgotten.
    method Reset() returns (error: Option<RuntimeError>)
      requires Valid()
      modifies Repr()
      ensures Valid() && Repr() == old(Repr())
      ensures error == None && Here() == Fresh(setup) && history == [] && cachedMask == None
    {
      hide Replay, HistoryFor, MaskIs, WellSet, Fresh, SaveView, RestoreView, Settled, Valid;
      hide RecognizerState.Abs, RecognizerState.Settings, RecognizerState.Generation, RecognizerState.Checkpoint;
      ValidParts();
      RestorePrefix(setup, Generation(), committedTokenIds, 0);
      NothingReplayed(setup, Generation(), committedTokenIds);
      error := RestoreGuide(initial);
      history := [];
      cachedMask := None;
      ValidFrom();
    }

    // ---------- Masks ----------

    // The mask of the current state, in the first words of the destination; the rest is cleared.  Bit id % 32 of word
    // id / 32 is one exactly for the ids the state offers; on an error nothing is offered, and the error is the walk's.
    method FillMask(destination: array<bv32>) returns (error: Option<RuntimeError>)
      requires Valid()
      modifies this`cachedMask, Repr() - {this}, destination
      ensures Valid() && Repr() == old(Repr()) && Here() == old(Here())
      ensures destination.Length < maskWords ==>
              error == Some(InternalInvariant) && destination[..] == old(destination[..])
      ensures destination.Length >= maskWords && error.None? ==>
                destination[maskWords..] == Blank(destination.Length - maskWords)
                  && cachedMask == Some(destination[..maskWords])
      ensures destination.Length >= maskWords && error.None? ==>
                forall id: nat :: Lit(destination[..], id) <==> Offered(setup, Here(), id)
      ensures destination.Length >= maskWords && error.Some? ==>
                destination[..] == Blank(destination.Length) && MaskFails(setup, Here(), error.value)
                  && forall mask :: !IsMask(mask)
    {
      hide Replay, HistoryFor, MaskIs, WellSet, Fresh, SaveView, Settled, Wired, Valid;
      ValidParts();
      if destination.Length < maskWords {
        return Some(InternalInvariant);
      }
      Clear(destination);
      BlankSplit(destination.Length, maskWords);
      if cachedMask.Some? {
        CachedWidth();
        CopyMask(destination, cachedMask.value);
        ValidFrom();
        BitsOffered(destination[..]);
        return None;
      }
      error := None;
      if finished {
        FinishedMask();
      } else {
        error := FillFromRuntime(destination);
      }
      if error.None? {
        cachedMask := Some(destination[..maskWords]);
        ValidFrom();
        BitsOffered(destination[..]);
      }
      ValidFrom();
    }

    // A buffer that holds the mask and is cleared behind it offers what the state does.
    lemma BitsOffered(words: seq<bv32>)
      requires Wired() && Settled(setup.source, Standing()) && |words| >= maskWords && IsMask(words[..maskWords])
      requires words[maskWords..] == Blank(|words| - maskWords)
      ensures forall id: nat :: Lit(words, id) <==> Offered(setup, Here(), id)
    {
      hide Lit, MaskIs, Offered, Settled;
      assert words == words[..maskWords] + Blank(|words| - maskWords);
      forall id: nat ensures Lit(words, id) <==> Offered(setup, Here(), id) {
        BehindMask(words[..maskWords], |words| - maskWords, id);
        MaskOffers(setup, Here(), words[..maskWords], id);
      }
    }

    ghost predicate IsMask(mask: seq<bv32>)
      reads this, if runtime.StructuralRuntime? then {runtime.recognizer.Object()} else {}
    {
      Settled(setup.source, Standing()) && MaskIs(setup, Here(), mask)
    }

    lemma CachedWidth()
      requires Wired() && cachedMask.Some? && IsMask(cachedMask.value)
      ensures |cachedMask.value| == maskWords
    {
    }

    lemma FinishedMask()
      requires Wired() && finished && Settled(setup.source, Standing())
      ensures IsMask(Blank(maskWords))
    {
    }

    // Ask the backend, over a cleared destination.
    method FillFromRuntime(destination: array<bv32>) returns (error: Option<RuntimeError>)
      requires Wired() && Settled(setup.source, Standing()) && !finished
      requires destination.Length >= maskWords && destination[..] == Blank(destination.Length)
      modifies Repr() - {this}, destination
      ensures Here() == old(Here())
      ensures error.None? ==>
                IsMask(destination[..maskWords]) && destination[maskWords..] == Blank(destination.Length - maskWords)
      ensures error.Some? ==> destination[..] == Blank(destination.Length) && MaskFails(setup, Here(), error.value)
                              && forall mask :: !IsMask(mask)
    {
      hide MaskFrom, Replay, Fresh, SaveView, DerivedFrom, WithBit;
      match runtime
      case IndexRuntime(index, state) =>
        var row := index.Row(state);
        RowFits(setup, state);
        FillRow(destination, row.Keys, maskWords);
        error := None;
      case StructuralRuntime(recognizer) =>
        var v := vocabulary.value;
        ghost var at := recognizer.Abs();
        StructuralMask(setup, at, destination.Length);
        BlankSplit(destination.Length, maskWords);
        error := FillStructuralMask(recognizer, v, destination, limits);
        if error.Some? {
          Clear(destination);
        }
    }

    // The enabled ids in ascending order.
    method GetTokens() returns (ids: seq<nat>, error: Option<RuntimeError>)
      requires Valid()
      modifies this`cachedMask, Repr() - {this}
      ensures Valid() && Repr() == old(Repr()) && Here() == old(Here())
      ensures error.None? ==> cachedMask.Some? && forall id: nat :: id in ids <==>
                                                    id < vocabSize && Enabled(cachedMask.value, id)
      ensures error.None? ==> forall id: nat :: id in ids <==> id < vocabSize && Offered(setup, Here(), id)
      ensures error.None? ==> forall i, j :: 0 <= i < j < |ids| ==> ids[i] < ids[j]
      ensures error.Some? ==> ids == [] && MaskFails(setup, Here(), error.value) && forall mask :: !IsMask(mask)
    {
      hide Replay, HistoryFor, WellSet, Fresh, SaveView, Settled, MaskIs, Valid;
      ids := [];
      ValidParts();
      var mask := new bv32[maskWords];
      error := FillMask(mask);
      if error.Some? {
        return;
      }
      assert mask[..maskWords] == mask[..];
      for token := 0 to vocabSize
        invariant Valid() && Repr() == old(Repr()) && Here() == old(Here()) && cachedMask == Some(mask[..])
        invariant forall id: nat :: id in ids <==> id < token && Enabled(mask[..], id)
        invariant forall i :: 0 <= i < |ids| ==> ids[i] < token
        invariant forall i, j :: 0 <= i < j < |ids| ==> ids[i] < ids[j]
      {
        if Meet(mask[token / 32], Mark(token % 32)) != 0 {
          ids := ids + [token];
        }
      }
    }

    // A separate guide in the same state.
    method Clone() returns (copy: Guide)
      requires Valid()
      ensures copy.Valid() && fresh(copy.Repr()) && copy.setup == setup && copy.Here() == Here()
      ensures copy.history == history
    {
      hide Replay, HistoryFor, WellSet, Fresh, SaveView, Settled, MaskIs;
      var own := runtime;
      if runtime.StructuralRuntime? {
        var recognizer := runtime.recognizer.Clone();
        own := StructuralRuntime(recognizer);
      }
      copy := new Guide.CopyOf(this, own);
    }

    constructor CopyOf(other: Guide, runtime: GuideRuntime)
      ensures this.runtime == runtime && setup == other.setup && vocabulary == other.vocabulary
      ensures eosTokenId == other.eosTokenId && vocabSize == other.vocabSize && maskWords == other.maskWords
      ensures initial == other.initial && maxRollback == other.maxRollback && limits == other.limits
      ensures history == other.history && finished == other.finished && cachedMask == other.cachedMask
      ensures committedTokenIds == other.committedTokenIds && committedBytes == other.committedBytes
    {
      this.runtime := runtime;
      setup, vocabulary, eosTokenId := other.setup, other.vocabulary, other.eosTokenId;
      vocabSize, maskWords, initial := other.vocabSize, other.maskWords, other.initial;
      maxRollback, limits, history := other.maxRollback, other.limits, other.history;
      finished, cachedMask := other.finished, other.cachedMask;
      committedTokenIds, committedBytes := other.committedTokenIds, other.committedBytes;
    }

    // Whether a trial copy of the guide takes all the tokens; the end of the sequence is not among them.
    method AcceptsTokens(sequence: seq<nat>) returns (accepts: bool)
      requires Valid()
      ensures accepts <==> eosTokenId !in sequence && Replay(setup, committedTokenIds + sequence).Done?
    {
      hide HistoryFor, WellSet, Fresh, SaveView, Settled, MaskIs, Take, Retain, Wired, Valid, Replay, Guides.Accepts;
      ValidParts();
      if eosTokenId in sequence {
        return false;
      }
      var trial := Clone();
      ghost var tokens := committedTokenIds;
      assert tokens + sequence[..0] == tokens;
      for k := 0 to |sequence|
        invariant trial.Valid() && fresh(trial.Repr()) && trial.setup == setup
        invariant trial.committedTokenIds == tokens + sequence[..k]
      {
        trial.ValidParts();
        ReplayOn(setup, tokens, sequence, k);
        var error := trial.Advance(sequence[k]);
        if error.Some? {
          return false;
        }
        assert tokens + sequence[..k] + [sequence[k]] == tokens + sequence[..k + 1];
      }
      trial.ValidParts();
      assert sequence[..|sequence|] == sequence;
      return true;
    }
  }

  // A token that fails on the way makes the whole replay fail.
  lemma ReplayOn(setup: Setup, tokens: seq<nat>, sequence: seq<nat>, k: nat)
    requires WellSet(setup) && k < |sequence| && Replay(setup, tokens + sequence[..k]).Done?
    ensures Settled(setup.source, Replay(setup, tokens + sequence[..k]).state.place)
    ensures Take(setup, Replay(setup, tokens + sequence[..k]).state, sequence[k]).Failed? ==>
            Replay(setup, tokens + sequence).Failed?
  {
    hide Take;
    var more := tokens + sequence[..k + 1];
    assert more[..|more| - 1] == tokens + sequence[..k];
    FailsOn(setup, tokens + sequence, |more|);
    assert (tokens + sequence)[..|more|] == more;
  }

  lemma BlankSplit(length: nat, words: nat)
    requires words <= length
    ensures Blank(length)[..words] == Blank(words) && Blank(length)[words..] == Blank(length - words)
    ensures Blank(length) == Blank(words) + Blank(length - words)
  {
  }

  lemma RowFits(setup: Setup, state: nat)
    requires WellSet(setup) && setup.source.IndexSource?
    ensures forall id: nat :: id in setup.source.index.Row(state) ==> id / 32 < WordsFor(setup.width)
  {
  }

  // The walk over a longer destination fails when the walk over the mask does, and otherwise pads it.
  lemma StructuralMask(setup: Setup, at: MachineState, length: nat)
    requires WellSet(setup) && setup.source.MachineSource? && Fits(setup.source.machine, at)
    requires length >= WordsFor(setup.width)
    ensures var words, v, m, limit := WordsFor(setup.width), setup.source.vocabulary, setup.source.machine,
            setup.limits.maxMaskTrieEdges;
            && MaskFrom(v, m, limit, at, Blank(length)) ==
               Padded(MaskFrom(v, m, limit, at, Blank(words)), Blank(length - words))
            && (MaskFrom(v, m, limit, at, Blank(words)).Done? ==>
               |MaskFrom(v, m, limit, at, Blank(words)).state.mask| == words)
  {
    var words, v := WordsFor(setup.width), setup.source.vocabulary;
    var tokens :| DerivedFrom(v, tokens, setup.eos);
    hide WithBit, WalkNode, Spells, HasToken;
    BlankSplit(length, words);
    MaskFromPad(v, tokens, setup.eos, setup.source.machine, setup.limits.maxMaskTrieEdges, at, Blank(words),
      Blank(length - words));
  }

  method Clear(destination: array<bv32>)
    modifies destination
    ensures destination[..] == Blank(destination.Length)
  {
    for i := 0 to destination.Length
      invariant forall k :: 0 <= k < i ==> destination[k] == 0
    {
      destination[i] := 0;
    }
  }

  method CopyMask(destination: array<bv32>, mask: seq<bv32>)
    requires |mask| <= destination.Length
    modifies destination
    ensures destination[..|mask|] == mask && destination[|mask|..] == old(destination[|mask|..])
  {
    for i := 0 to |mask|
      invariant forall k :: 0 <= k < i ==> destination[k] == mask[k]
      invariant forall k :: |mask| <= k < destination.Length ==> destination[k] == old(destination[k])
    {
      destination[i] := mask[i];
    }
  }

  // Enable the ids, in any order, over a cleared destination.
  method FillRow(destination: array<bv32>, ids: set<nat>, words: nat)
    requires words <= destination.Length && destination[..] == Blank(destination.Length)
    requires forall id <- ids :: id / 32 < words
    modifies destination
    ensures destination[words..] == Blank(destination.Length - words)
    ensures forall id: nat :: Enabled(destination[..words], id) <==> id in ids
  {
    hide WithBit, Enabled;
    BlankSplit(destination.Length, words);
    forall id: nat ensures !Enabled(Blank(words), id) {
      BlankEnables(words, id);
    }
    var left := ids;
    while left != {}
      invariant left <= ids && destination[words..] == Blank(destination.Length - words)
      invariant forall id: nat :: Enabled(destination[..words], id) <==> id in ids - left
      decreases left
    {
      var id :| id in left;
      left := left - {id};
      ghost var before := destination[..words];
      destination[id / 32] := WithBit(destination[id / 32], id % 32);
      assert destination[..words] == SetMaskBit(before, id).value;
      assert destination[words..] == Blank(destination.Length - words);
      forall other: nat ensures Enabled(destination[..words], other) <==> other == id || Enabled(before, other) {
        SetMaskBitExact(before, id, other);
      }
    }
  }

  lemma BlankEnables(words: nat, id: nat)
    ensures !Enabled(Blank(words), id)
  {
    hide MaskBits.At;
    if id / 32 < words {
      ZeroAt(id % 32);
    }
  }

  // Once a token fails, no longer sequence replays.
  lemma {:induction false} FailsOn(setup: Setup, tokens: seq<nat>, k: nat)
    requires WellSet(setup) && k <= |tokens|
    ensures Replay(setup, tokens[..k]).Failed? ==> Replay(setup, tokens).Failed?
    decreases |tokens|
  {
    hide Take;
    if k < |tokens| {
      FailsOn(setup, tokens[..|tokens| - 1], k);
      assert tokens[..|tokens| - 1][..k] == tokens[..k];
    } else {
      assert tokens[..k] == tokens;
    }
  }

  lemma AllTaken<T>(s: seq<T>)
    ensures s[..|s| - 0] == s
  {
  }

  lemma HistoryLength(setup: Setup, generation: nat, tokens: seq<nat>, history: seq<GuideCheckpoint>)
    requires WellSet(setup) && HistoryFor(setup, generation, tokens, history)
    ensures |history| <= |tokens|
  {
  }

  lemma ReplaySettled(setup: Setup, tokens: seq<nat>)
    requires WellSet(setup)
    ensures Settled(setup.source, Replay(setup, tokens).state.place)
  {
  }

  lemma NothingReplayed(setup: Setup, generation: nat, tokens: seq<nat>)
    requires WellSet(setup)
    ensures tokens[..0] == [] && Replay(setup, []) == Done(Fresh(setup), ()) && Fresh(setup).tokens == []
    ensures Settled(setup.source, Fresh(setup).place) && HistoryFor(setup, generation, [], [])
  {
  }

  lemma ReplayMore(setup: Setup, tokens: seq<nat>, token: nat)
    requires WellSet(setup) && Replay(setup, tokens).Done?
    ensures Settled(setup.source, Replay(setup, tokens).state.place)
    ensures var view := Replay(setup, tokens).state;
            Take(setup, view, token).Done? ==> Replay(setup, tokens + [token]) == Take(setup, view, token)
  {
    hide Take;
    assert (tokens + [token])[..|tokens|] == tokens;
  }
}
