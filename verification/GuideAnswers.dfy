/**
 What a guide answers to one more token, and why: after the end nothing is taken, and each error has its own cause in
 the tokens, the vocabulary and the language.
 */
module GuideAnswers {
  import opened Grammars
  import opened Runtime
  import opened RegularExpressions
  import opened SchemaGrammars
  import opened Recognizers
  import opened Tries
  import opened Guides
  import opened Preparation
  import opened GuidedBackends
  import T = Terminals
  import Indexes
  import GrammarReduction

  // ---------- The end is final ----------

  // The end of the sequence is the last token taken, and the guide is finished exactly behind it.
  lemma {:induction false} EndOnlyLast(setup: Setup, ids: seq<nat>)
    requires WellSet(setup) && Replay(setup, ids).Done?
    ensures ids != [] ==> setup.eos !in ids[..|ids| - 1]
    ensures Replay(setup, ids).state.finished <==> setup.eos in ids
    decreases |ids|
  {
    hide WellSet, Move, IsFinal;
    if ids != [] {
      var front, token := ids[..|ids| - 1], ids[|ids| - 1];
      EndOnlyLast(setup, front);
      assert ids == front + [token];
    }
  }

  // Behind the end every token fails, whatever it is, and the error is always the same.
  lemma {:induction false} EndIsFinal(setup: Setup, ids: seq<nat>, more: seq<nat>)
    requires WellSet(setup) && Replay(setup, ids).Done? && setup.eos in ids && more != []
    ensures Replay(setup, ids + more).Failed? && Replay(setup, ids + more).error == GuideFinished
    ensures Replay(setup, ids + more).state == Replay(setup, ids).state
    decreases |more|
  {
    hide WellSet, Move, IsFinal;
    EndOnlyLast(setup, ids);
    var front := more[..|more| - 1];
    assert (ids + more)[..|ids + more| - 1] == ids + front;
    if front == [] {
      assert ids + front == ids;
    } else {
      EndIsFinal(setup, ids, front);
    }
  }

  // ---------- One more token ----------

  // A token that changes nothing and says why.
  ghost predicate Refused(r: Outcome<View, ()>, view: View, error: RuntimeError) {
    r == Failed(view, error)
  }

  // The finished guide, the count of tokens, and the end come before anything else.
  lemma OrderedAnswers(setup: Setup, ids: seq<nat>, id: nat)
    requires WellSet(setup) && Replay(setup, ids).Done?
    ensures var view, r, max := Replay(setup, ids).state, Replay(setup, ids + [id]), setup.limits.maxCommittedTokens;
            && (setup.eos in ids ==> Refused(r, view, GuideFinished))
            && (setup.eos !in ids && |ids| >= max ==>
                  Refused(r, view, LimitExceeded(CommittedTokens, |ids| + 1, max)))
            && (setup.eos !in ids && |ids| < max && id == setup.eos ==>
                  if IsFinal(setup.source, view.place) then r.Done? else Refused(r, view, EosNotAccepting))
            && (setup.eos !in ids && |ids| < max && id != setup.eos ==>
                  match Move(setup.source, view.place, id)
                  case Failed(_, error) => Refused(r, view, error)
                  case Done(place, bytes) => r == Done(View(place, false, ids + [id], view.bytes + bytes), ()))
  {
    hide WellSet, IsFinal;
    EndOnlyLast(setup, ids);
    ReplayTokens(setup, ids);
    TakeReplays(setup, ids, id);
  }

  // Everything a structural guide answers.  After the end it is finished; then the count of tokens is limited; the end
  // is refused exactly when the bytes are no word, or the end has no room; an id that no word spells is unknown; and a
  // token is refused exactly when its bytes start no word, unless the recognizer overruns a limit of its own.
  ghost predicate Answers(meaning: Meaning, g: Grammar, setup: Setup, tokens: map<Word, seq<nat>>, ids: seq<nat>,
      id: nat)
    requires WellSet(setup) && setup.source.MachineSource?
  {
    var view, r, m := Replay(setup, ids).state, Replay(setup, ids + [id]), setup.source.machine;
    var max := setup.limits.maxCommittedTokens;
    if setup.eos in ids then Refused(r, view, GuideFinished)
    else if |ids| >= max then Refused(r, view, LimitExceeded(CommittedTokens, |ids| + 1, max))
    else if id == setup.eos then
      if Grammars.Accepts(CfgFor(meaning, g), view.bytes) && RoomAtEnd(m, view.place.at)
      then r == Done(view.(finished := true, tokens := ids + [id]), ())
      else Refused(r, view, EosNotAccepting)
    else if !InVocabulary(tokens, id) then Refused(r, view, UnknownTokenId(id))
    else
      forall w: Word :: HasToken(tokens, w, id) ==>
        var run := Consume(m, view.place.at, w);
        if run.Failed? then Refused(r, view, run.error) && Overrun(setup.limits, run.error)
        else if Extensible(meaning, g, view.bytes + w)
        then r == Done(View(MachinePlace(run.state), false, ids + [id], view.bytes + w), ())
        else Refused(r, view, TokenNotAllowed(id))
  }

  // Main result, structural path.
  lemma CommitAnswers(b: Backend, meaning: Meaning, g: Grammar, setup: Setup, fuel: nat, tokens: map<Word, seq<nat>>,
      ids: seq<nat>, id: nat)
    requires Represents(b, meaning, g) && GrammarReduction.TerminalsMatch(meaning, g) && Runs(setup, b, fuel, tokens)
    requires WellSet(setup) && Replay(setup, ids).Done?
    requires AmpleAround(setup.source.machine, tokens, Replay(setup, ids).state.bytes)
    ensures Answers(meaning, g, setup, tokens, ids, id)
  {
    hide Represents, GrammarReduction.TerminalsMatch, WellSet, Replay, Consume, Recognizers.IsAccepting,
      Recognizers.IsLive, Opened, MachineFor, RoomAtEnd, Unshut, Extensible, CfgFor, Ample, DerivedFrom,
      Indexes.EosReserved, Grammars.Accepts;
    var view, m := Replay(setup, ids).state, setup.source.machine;
    OrderedAnswers(setup, ids, id);
    ReplayTokens(setup, ids);
    EndOnlyLast(setup, ids);
    if id == setup.eos {
      EndTells(b, meaning, g, setup, fuel, tokens, ids);
      TakeReplays(setup, ids, id);
    } else {
      TokenBytes(setup.source.vocabulary, tokens, setup.eos, id);
      forall w: Word | HasToken(tokens, w, id)
        ensures RunTells(m, Consume(m, view.place.at, w), meaning, g, view.bytes + w)
      {
        RunOnTells(b, meaning, g, setup, fuel, tokens, ids, w);
      }
    }
  }

  // ---------- The index ----------

  // Everything an index guide answers: no byte is read, so no limit but the count of tokens is in the way.
  ghost predicate IndexAnswers(meaning: Meaning, g: Grammar, setup: Setup, tokens: map<Word, seq<nat>>, ids: seq<nat>,
      x: Word, id: nat)
    requires WellSet(setup)
  {
    var view, r, max := Replay(setup, ids).state, Replay(setup, ids + [id]), setup.limits.maxCommittedTokens;
    if setup.eos in ids then Refused(r, view, GuideFinished)
    else if |ids| >= max then Refused(r, view, LimitExceeded(CommittedTokens, |ids| + 1, max))
    else if id == setup.eos then
      if Grammars.Accepts(CfgFor(meaning, g), x) then r.Done? else Refused(r, view, EosNotAccepting)
    else if KeepsGoing(meaning, g, tokens, x, id) then r.Done?
    else Refused(r, view, TokenNotAllowed(id))
  }

  // Main result, index path: `x` is what the tokens before spell.
  lemma IndexCommitAnswers(d: T.ByteDfa, meaning: Meaning, g: Grammar, setup: Setup, tokens: map<Word, seq<nat>>,
      ids: seq<nat>, words: seq<Word>, id: nat)
    requires Represents(Backend.WholeDfa(d), meaning, g) && OnIndex(setup, d, tokens) && Replay(setup, ids).Done?
    requires setup.eos !in ids ==>
               Indexes.Spelled(tokens, ids, words) && (ids == [] || Extensible(meaning, g, Indexes.Concat(words)))
    ensures IndexAnswers(meaning, g, setup, tokens, ids, Indexes.Concat(words), id)
  {
    hide WellSet, Replay, CfgFor, LedTo, Indexes.Reachable, Extensible, Represents, Grammars.Accepts,
      Indexes.LeadsLive;
    OrderedAnswers(setup, ids, id);
    EndOnlyLast(setup, ids);
    if setup.eos !in ids {
      ReplayWithin(setup, ids);
      SpellingReplays(setup, d, meaning, g, tokens, ids, words);
      var again := IndexReplays(setup, d, tokens, ids);
      var s, x := Replay(setup, ids).state.place.state, Indexes.Concat(words);
      LiveExtends(d, meaning, g, s, x);
      if d.IsLive(0) || d.IsAccepting(0) {
        NextKeepsGoing(d, meaning, g, setup, tokens, s, x, id);
      } else {
        forall w: Word ensures !Extensible(meaning, g, x + w) {
          DeadHasNone(d, meaning, g, x + w);
        }
        DeadHasNone(d, meaning, g, x);
        WordStarts(meaning, g, x);
      }
    }
  }
}
