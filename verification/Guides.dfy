/**
 The guide as a value: which tokens it takes and what they leave behind.  Everything a guide knows is
 determined by the tokens it has committed, so replaying them from the start gives its state back.
 */
module Guides {
  import opened Grammars
  import opened Runtime
  import opened Recognizers
  import opened Tries
  import opened MaskBits
  import opened Masks
  import opened Indexes
  import Terminals

  datatype Source =
    | IndexSource(index: Index)
    | MachineSource(machine: Machine, start: MachineState, vocabulary: DerivedVocabulary)

  datatype Setup = Setup(source: Source, eos: nat, width: nat, limits: RuntimeLimits)

  datatype Place = IndexPlace(state: nat) | MachinePlace(at: MachineState)

  datatype View = View(place: Place, finished: bool, tokens: seq<nat>, bytes: Word)

  predicate Settled(source: Source, place: Place) {
    match source
    case IndexSource(_) => place.IndexPlace?
    case MachineSource(m, _, _) => place.MachinePlace? && Fits(m, place.at)
  }

  // The backend and the vocabulary belong together.
  ghost predicate WellSet(setup: Setup) {
    match setup.source
    case IndexSource(index) => forall s: nat, id: nat :: id in index.Row(s) ==> id < setup.width
    case MachineSource(m, start, vocabulary) =>
      Fits(m, start) && vocabulary.vocabSize == setup.width
        && exists tokens :: DerivedFrom(vocabulary, tokens, setup.eos)
  }

  function Fresh(setup: Setup): View {
    match setup.source
    case IndexSource(index) => View(IndexPlace(index.initialState), false, [], [])
    case MachineSource(_, start, _) => View(MachinePlace(start), false, [], [])
  }

  predicate IsFinal(source: Source, place: Place)
    requires Settled(source, place)
  {
    match source
    case IndexSource(index) => place.state in index.finalStates
    case MachineSource(m, _, _) => IsAccepting(m, place.at)
  }

  predicate Accepts(setup: Setup, view: View)
    requires Settled(setup.source, view.place)
  {
    !view.finished && IsFinal(setup.source, view.place)
  }

  // Where a token leads, and the bytes it commits; the index backend keeps no bytes.
  function Move(source: Source, place: Place, token: nat): (r: Outcome<Place, Word>)
    requires Settled(source, place)
    ensures Settled(source, r.state) && (r.Failed? ==> r.state == place)
  {
    match source
    case IndexSource(index) =>
      (match index.NextState(place.state, token)
       case None => Failed(place, TokenNotAllowed(token))
       case Some(q) => Done(IndexPlace(q), []))
    case MachineSource(m, _, vocabulary) =>
      match vocabulary.SharedBytes(token)
      case None => Failed(place, UnknownTokenId(token))
      case Some(bytes) =>
        match TryAdvance(m, place.at, bytes)
        case Failed(_, error) => Failed(place, error)
        case Done(_, Rejected) => Failed(place, TokenNotAllowed(token))
        case Done(next, _) => Done(MachinePlace(next), bytes)
  }

  // One token, all or nothing.
  function Take(setup: Setup, view: View, token: nat): (r: Outcome<View, ()>)
    requires Settled(setup.source, view.place)
    ensures Settled(setup.source, r.state.place) && (r.Failed? ==> r.state == view)
  {
    var count := |view.tokens| + 1;
    if view.finished then
      Failed(view, GuideFinished)
    else if count > setup.limits.maxCommittedTokens then
      Failed(view, LimitExceeded(CommittedTokens, count, setup.limits.maxCommittedTokens))
    else if token == setup.eos then
      if !Accepts(setup, view) then
        Failed(view, EosNotAccepting)
      else
        Done(view.(finished := true, tokens := view.tokens + [token]), ())
    else
      match Move(setup.source, view.place, token)
      case Failed(_, error) => Failed(view, error)
      case Done(place, bytes) => Done(View(place, false, view.tokens + [token], view.bytes + bytes), ())
  }

  // A fresh guide fed the tokens.
  function Replay(setup: Setup, tokens: seq<nat>): (r: Outcome<View, ()>)
    requires WellSet(setup)
    ensures Settled(setup.source, r.state.place)
    decreases |tokens|
  {
    if tokens == [] then
      Done(Fresh(setup), ())
    else
      var (view, _) :- Replay(setup, tokens[..|tokens| - 1]);
      Take(setup, view, tokens[|tokens| - 1])
  }

  ghost predicate ExtendsPlace(later: Place, earlier: Place) {
    match (later, earlier)
    case (IndexPlace(_), IndexPlace(_)) => true
    case (MachinePlace(l), MachinePlace(e)) => Extends(l, e)
    case _ => false
  }

  lemma TakeExtends(setup: Setup, view: View, token: nat)
    requires Settled(setup.source, view.place) && Take(setup, view, token).Done?
    ensures var next := Take(setup, view, token).state;
            && next.tokens == view.tokens + [token] && view.bytes <= next.bytes
            && ExtendsPlace(next.place, view.place)
  {
    if setup.source.MachineSource? {
      var m := setup.source.machine;
      hide StepByte, Consume, TryAdvance, Extends, IsAccepting;
      ExtendsItself(m, view.place.at);
      match setup.source.vocabulary.SharedBytes(token)
      case None =>
      case Some(bytes) => AllOrNothing(m, view.place.at, bytes);
    }
  }

  lemma PlaceTransitive(a: Place, b: Place, c: Place)
    requires ExtendsPlace(a, b) && ExtendsPlace(b, c)
    ensures ExtendsPlace(a, c)
  {
    if a.MachinePlace? {
      ExtendsTransitive(a.at, b.at, c.at);
    }
  }

  // Every prefix of what was replayed was replayed on the way, and leaves an earlier state of the same run.
  lemma {:induction false} ReplayPrefix(setup: Setup, tokens: seq<nat>, k: nat)
    requires WellSet(setup) && Replay(setup, tokens).Done? && k <= |tokens|
    ensures Replay(setup, tokens[..k]).Done?
    ensures var view, before := Replay(setup, tokens).state, Replay(setup, tokens[..k]).state;
            && view.tokens == tokens && before.tokens == tokens[..k] && before.bytes <= view.bytes
            && ExtendsPlace(view.place, before.place)
    decreases |tokens|
  {
    hide Take, Settled;
    if k < |tokens| {
      var front := tokens[..|tokens| - 1];
      var token := tokens[|tokens| - 1];
      ReplayPrefix(setup, front, k);
      assert front[..k] == tokens[..k] && front + [token] == tokens;
      var view := Replay(setup, front).state;
      ReplayPrefix(setup, front, |front|);
      assert front[..|front|] == front;
      TakeExtends(setup, view, token);
      PlaceTransitive(Replay(setup, tokens).state.place, view.place, Replay(setup, front[..k]).state.place);
    } else {
      assert tokens[..k] == tokens;
      ReplayTokens(setup, tokens);
      PlaceItself(setup, Replay(setup, tokens).state.place);
    }
  }

  lemma PlaceItself(setup: Setup, place: Place)
    requires Settled(setup.source, place)
    ensures ExtendsPlace(place, place)
  {
    if place.MachinePlace? {
      ExtendsItself(setup.source.machine, place.at);
    }
  }

  lemma {:induction false} ReplayTokens(setup: Setup, tokens: seq<nat>)
    requires WellSet(setup) && Replay(setup, tokens).Done?
    ensures Replay(setup, tokens).state.tokens == tokens
    decreases |tokens|
  {
    hide Take, Settled;
    if tokens != [] {
      var front := tokens[..|tokens| - 1];
      ReplayTokens(setup, front);
      TakeExtends(setup, Replay(setup, front).state, tokens[|tokens| - 1]);
      assert front + [tokens[|tokens| - 1]] == tokens;
    }
  }

  // ---------- Checkpoints ----------

  datatype GuideCheckpoint =
    | IndexCheckpoint(state: nat, committedTokens: nat, committedBytes: nat, finished: bool)
    | StructuralCheckpoint(recognizer: RecognizerCheckpoint, committedTokens: nat, committedBytes: nat, finished: bool)

  function SaveView(generation: nat, view: View): GuideCheckpoint {
    match view.place
    case IndexPlace(state) => IndexCheckpoint(state, |view.tokens|, |view.bytes|, view.finished)
    case MachinePlace(at) => StructuralCheckpoint(Save(generation, at), |view.tokens|, |view.bytes|, view.finished)
  }

  function Truncate<T>(s: seq<T>, n: nat): seq<T> {
    if n <= |s| then s[..n] else s
  }

  function RestoreView(generation: nat, view: View, checkpoint: GuideCheckpoint): Outcome<View, ()> {
    match (view.place, checkpoint)
    case (IndexPlace(_), IndexCheckpoint(state, tokens, bytes, finished)) =>
      Done(View(IndexPlace(state), finished, Truncate(view.tokens, tokens), Truncate(view.bytes, bytes)), ())
    case (MachinePlace(at), StructuralCheckpoint(recognizer, tokens, bytes, finished)) =>
      (match RestoreFrom(generation, at, recognizer)
       case Failed(_, error) => Failed(view, error)
       case Done(next, _) =>
         Done(View(MachinePlace(next), finished, Truncate(view.tokens, tokens), Truncate(view.bytes, bytes)), ()))
    case _ => Failed(view, InternalInvariant)
  }

  // Restoring the checkpoint of a prefix gives exactly what replaying the prefix gives.
  lemma RestorePrefix(setup: Setup, generation: nat, tokens: seq<nat>, k: nat)
    requires WellSet(setup) && Replay(setup, tokens).Done? && k <= |tokens|
    ensures Replay(setup, tokens[..k]).Done?
    ensures RestoreView(generation, Replay(setup, tokens).state, SaveView(generation, Replay(setup, tokens[..k]).state))
         == Replay(setup, tokens[..k])
  {
    ReplayPrefix(setup, tokens, k);
    hide Replay, Extends, RestoreFrom, Save, Fits;
    var view, before := Replay(setup, tokens).state, Replay(setup, tokens[..k]).state;
    if setup.source.MachineSource? {
      RestoreExact(setup.source.machine, generation, before.place.at, view.place.at);
    }
    assert view.bytes[..|before.bytes|] == before.bytes;
    assert Replay(setup, tokens[..k]).value == ();
  }

  // ---------- The history ----------

  // Entry `i` is the checkpoint of the prefix it stands for: the history holds the last prefixes, oldest first.
  ghost predicate EntryFor(setup: Setup, generation: nat, tokens: seq<nat>, history: seq<GuideCheckpoint>, i: nat)
    requires WellSet(setup) && i < |history| <= |tokens|
  {
    var prefix := tokens[..|tokens| - |history| + i];
    Replay(setup, prefix).Done? && history[i] == SaveView(generation, Replay(setup, prefix).state)
  }

  ghost predicate HistoryFor(setup: Setup, generation: nat, tokens: seq<nat>, history: seq<GuideCheckpoint>)
    requires WellSet(setup)
  {
    |history| <= |tokens| && forall i: nat :: i < |history| ==> EntryFor(setup, generation, tokens, history, i)
  }

  // Keep at most `max` entries, dropping the oldest.
  function Retain(history: seq<GuideCheckpoint>, checkpoint: GuideCheckpoint, max: nat): (r: seq<GuideCheckpoint>)
    ensures |history| <= max ==> |r| == if |history| + 1 <= max then |history| + 1 else max
  {
    if max == 0 then history
    else if |history| < max then history + [checkpoint]
    else history[|history| - (max - 1)..] + [checkpoint]
  }

  lemma HistoryGrows(setup: Setup, generation: nat, tokens: seq<nat>, history: seq<GuideCheckpoint>, token: nat,
      max: nat)
    requires WellSet(setup) && HistoryFor(setup, generation, tokens, history) && |history| <= max
    requires Replay(setup, tokens).Done?
    ensures HistoryFor(setup, generation, tokens + [token],
            Retain(history, SaveView(generation, Replay(setup, tokens).state), max))
  {
    hide Replay, WellSet, SaveView, Take, Fresh;
    var checkpoint := SaveView(generation, Replay(setup, tokens).state);
    var kept := Retain(history, checkpoint, max);
    var more := tokens + [token];
    forall i: nat | i < |kept| ensures EntryFor(setup, generation, more, kept, i) {
      if i == |kept| - 1 {
        assert more[..|more| - 1] == tokens;
      } else {
        var j := i + |history| - (|kept| - 1);
        assert EntryFor(setup, generation, tokens, history, j);
        assert more[..|more| - |kept| + i] == tokens[..|tokens| - |history| + j];
      }
    }
  }

  lemma HistoryShrinks(setup: Setup, generation: nat, tokens: seq<nat>, history: seq<GuideCheckpoint>, k: nat)
    requires WellSet(setup) && HistoryFor(setup, generation, tokens, history) && k <= |history|
    ensures HistoryFor(setup, generation, tokens[..|tokens| - k], history[..|history| - k])
  {
    hide Replay, WellSet, SaveView, Take, Fresh;
    var fewer, rest := tokens[..|tokens| - k], history[..|history| - k];
    forall i: nat | i < |rest| ensures EntryFor(setup, generation, fewer, rest, i) {
      assert EntryFor(setup, generation, tokens, history, i);
      assert fewer[..|fewer| - |rest| + i] == tokens[..|tokens| - |history| + i];
    }
  }

  // The entry `k` places from the end is the checkpoint of `k` tokens ago.
  lemma HistoryEntry(setup: Setup, generation: nat, tokens: seq<nat>, history: seq<GuideCheckpoint>, k: nat)
    requires WellSet(setup) && HistoryFor(setup, generation, tokens, history) && 0 < k <= |history|
    ensures Replay(setup, tokens[..|tokens| - k]).Done?
    ensures history[|history| - k] == SaveView(generation, Replay(setup, tokens[..|tokens| - k]).state)
  {
    hide Replay, WellSet, SaveView, Take, Fresh;
    assert EntryFor(setup, generation, tokens, history, |history| - k);
  }

  // ---------- Masks ----------

  function WordsFor(width: nat): nat {
    (width + 31) / 32
  }

  function Blank(words: nat): seq<bv32> {
    seq(words, _ => 0)
  }

  // The bits of the mask in a view: nothing once finished, the row of the index, or the walk of the trie.
  ghost predicate MaskIs(setup: Setup, view: View, mask: seq<bv32>)
    requires Settled(setup.source, view.place)
  {
    |mask| == WordsFor(setup.width) &&
    if view.finished then mask == Blank(|mask|)
    else
      match setup.source
      case IndexSource(index) => forall id: nat :: Enabled(mask, id) <==> id in index.Row(view.place.state)
      case MachineSource(m, _, vocabulary) =>
        var r := MaskFrom(vocabulary, m, setup.limits.maxMaskTrieEdges, view.place.at, Blank(|mask|));
        r.Done? && r.state.mask == mask
  }

  // What a view offers: nothing once finished; the row of the index; or the end in an accepting state, and every id
  // whose bytes the recognizer lets through.
  ghost predicate Offered(setup: Setup, view: View, id: nat)
    requires Settled(setup.source, view.place)
  {
    !view.finished &&
    match setup.source
    case IndexSource(index) => id in index.Row(view.place.state)
    case MachineSource(m, _, vocabulary) =>
      || (id == setup.eos && IsAccepting(m, view.place.at))
      || (vocabulary.SharedBytes(id).Some? && Allows(m, view.place.at, vocabulary.SharedBytes(id).value))
  }

  // The walk of the trie stopped on `error`.
  ghost predicate MaskFails(setup: Setup, view: View, error: RuntimeError)
    requires Settled(setup.source, view.place)
  {
    !view.finished && setup.source.MachineSource? &&
    var r := MaskFrom(setup.source.vocabulary, setup.source.machine, setup.limits.maxMaskTrieEdges, view.place.at,
               Blank(WordsFor(setup.width)));
    r.Failed? && r.error == error
  }

  // The mask offers what the view does.
  lemma MaskOffers(setup: Setup, view: View, mask: seq<bv32>, id: nat)
    requires WellSet(setup) && Settled(setup.source, view.place) && MaskIs(setup, view, mask)
    ensures Lit(mask, id) <==> Offered(setup, view, id)
  {
    hide Enabled, Lit, IsAccepting, Allows, MaskFrom, DerivedFrom;
    LitIsEnabled(mask, id);
    BlankHasNone(|mask|, id);
    if setup.source.MachineSource? && !view.finished {
      var v, m, limit := setup.source.vocabulary, setup.source.machine, setup.limits.maxMaskTrieEdges;
      var tokens :| DerivedFrom(v, tokens, setup.eos);
      MaskExact(v, tokens, setup.eos, m, limit, view.place.at, Blank(|mask|), id);
      TokenBytes(v, tokens, setup.eos, id);
    }
  }

  // Cleared words behind the mask light nothing.
  lemma BehindMask(mask: seq<bv32>, words: nat, id: nat)
    ensures Lit(mask + Blank(words), id) <==> Lit(mask, id)
  {
    LitIsEnabled(mask + Blank(words), id);
    LitIsEnabled(mask, id);
    hide At, Lit;
    if |mask| <= id / 32 < |mask| + words {
      ZeroAt(id % 32);
    }
  }

  // Two masks of the same view agree on every id, so a cached mask equals a recomputed one.
  lemma MasksAgree(setup: Setup, view: View, a: seq<bv32>, b: seq<bv32>, id: nat)
    requires Settled(setup.source, view.place) && MaskIs(setup, view, a) && MaskIs(setup, view, b)
    ensures Enabled(a, id) == Enabled(b, id) && (setup.source.MachineSource? ==> a == b)
  {
    hide Enabled, MaskFrom;
  }

  // The place a token would lead to is live.
  predicate LivesOn(source: Source, place: Place)
    requires Settled(source, place)
  {
    source.MachineSource? ==> IsLive(source.machine, place.at)
  }

  // The mask of a structural backend: an ordinary token is enabled exactly when committing it succeeds and
  // leaves the recognizer live, the end of the sequence exactly when committing it succeeds.
  lemma StructuralMaskExact(setup: Setup, tokens: map<Word, seq<nat>>, view: View, mask: seq<bv32>, id: nat)
    requires setup.source.MachineSource? && Settled(setup.source, view.place) && !view.finished
    requires DerivedFrom(setup.source.vocabulary, tokens, setup.eos) && EosReserved(tokens, setup.eos)
    requires MaskIs(setup, view, mask) && |view.tokens| < setup.limits.maxCommittedTokens
    ensures id != setup.eos ==> (Enabled(mask, id) <==>
              Take(setup, view, id).Done? && LivesOn(setup.source, Take(setup, view, id).state.place))
    ensures id == setup.eos ==> (Enabled(mask, id) <==> Take(setup, view, id).Done?)
  {
    hide DerivedFrom, Consume, IsAccepting, IsLive, MaskFrom, Enabled;
    var v, m, at := setup.source.vocabulary, setup.source.machine, view.place.at;
    BlankHasNone(|mask|, id);
    MaskExact(v, tokens, setup.eos, m, setup.limits.maxMaskTrieEdges, at, Blank(|mask|), id);
    if id != setup.eos {
      TokenBytes(v, tokens, setup.eos, id);
      match v.SharedBytes(id)
      case None =>
      case Some(w) =>
        AllowsTaken(m, at, w);
    } else {
      assert forall w: Word :: !HasToken(tokens, w, id);
    }
  }

  lemma BlankHasNone(words: nat, id: nat)
    ensures !Enabled(Blank(words), id)
  {
    hide At;
    if id / 32 < words {
      ZeroAt(id % 32);
    }
  }

  // The reverse map gives the only byte string of an id.
  lemma TokenBytes(v: DerivedVocabulary, tokens: map<Word, seq<nat>>, eos: nat, id: nat)
    requires DerivedFrom(v, tokens, eos)
    ensures forall w: Word :: HasToken(tokens, w, id) <==> v.SharedBytes(id) == Some(w)
    ensures v.SharedBytes(id).Some? ==> v.SharedBytes(id).value != []
  {
    hide Enumerates, TrieShape;
    forall w: Word ensures HasToken(tokens, w, id) <==> v.SharedBytes(id) == Some(w) {
    }
  }

  lemma AllowsTaken(m: Machine, at: MachineState, w: Word)
    requires Fits(m, at)
    ensures var r := TryAdvance(m, at, w);
            Allows(m, at, w) <==> r.Done? && r.value != Rejected && IsLive(m, r.state)
  {
    hide IsLive, Consume;
  }

  // With the DFA or the Earley recognizer, every enabled token is one that committing accepts, and conversely.
  lemma MaskIsAdvance(setup: Setup, tokens: map<Word, seq<nat>>, view: View, mask: seq<bv32>, id: nat)
    requires setup.source.MachineSource? && Settled(setup.source, view.place) && !view.finished
    requires DerivedFrom(setup.source.vocabulary, tokens, setup.eos) && EosReserved(tokens, setup.eos)
    requires MaskIs(setup, view, mask) && |view.tokens| < setup.limits.maxCommittedTokens
    requires !setup.source.machine.LalrMachine?
    ensures Enabled(mask, id) <==> Take(setup, view, id).Done?
  {
    StructuralMaskExact(setup, tokens, view, mask, id);
    TokenBytes(setup.source.vocabulary, tokens, setup.eos, id);
    hide DerivedFrom, Consume, IsAccepting, IsLive, MaskFrom, Enabled, MaskIs;
    var bytes := setup.source.vocabulary.SharedBytes(id);
    if id != setup.eos && bytes.Some? {
      PassedIsLive(setup.source.machine, view.place.at, bytes.value);
    }
  }

  // The same for the token index, in every state that tokens reach.
  lemma IndexMaskIsAdvance(setup: Setup, d: Terminals.ByteDfa, tokens: map<Word, seq<nat>>, view: View,
      mask: seq<bv32>, id: nat)
    requires setup.source.IndexSource? && Settled(setup.source, view.place) && !view.finished
    requires ProjectionOf(setup.source.index, d, tokens, setup.eos) && Reachable(d, tokens, view.place.state)
    requires MaskIs(setup, view, mask) && |view.tokens| < setup.limits.maxCommittedTokens
    ensures Enabled(mask, id) <==> Take(setup, view, id).Done?
  {
    hide Reachable, RowExact, Stuck, Enabled;
  }
}
