/**
 What the mask of a guide says about the language behind it.  The tokens a guide has committed spell bytes; an ordinary
 token is enabled exactly when those bytes and its own are a prefix of a word of the grammar, and the end of the
 sequence exactly when the bytes are a word.
 */
module GuidedBackends {
  import opened Grammars
  import opened Runtime
  import opened RegularExpressions
  import opened SchemaGrammars
  import opened Recognizers
  import opened Tries
  import opened Masks
  import opened Guides
  import opened Preparation
  import T = Terminals
  import Indexes
  import LalrDriver
  import Lalr
  import LalrTheorems
  import LalrLiveness
  import LalrRoom
  import GrammarReduction

  // ---------- The bytes behind a guide ----------

  // The recognizer of a structural guide has read exactly the committed bytes, and was never rejected.
  lemma {:induction false} ReplayConsumes(setup: Setup, ids: seq<nat>)
    requires WellSet(setup) && setup.source.MachineSource? && Replay(setup, ids).Done?
    ensures var view := Replay(setup, ids).state;
            Consume(setup.source.machine, setup.source.start, view.bytes) == Done(view.place.at, true)
    decreases |ids|
  {
    hide DerivedFrom, Recognizers.IsAccepting, Consume;
    var m, start := setup.source.machine, setup.source.start;
    if ids == [] {
      ConsumeNothing(m, start);
    } else {
      var front, token := ids[..|ids| - 1], ids[|ids| - 1];
      ReplayConsumes(setup, front);
      var view := Replay(setup, front).state;
      if token != setup.eos {
        var bytes := setup.source.vocabulary.SharedBytes(token).value;
        ConsumeSplit(m, start, view.bytes, bytes);
      }
    }
  }

  lemma ConsumeNothing(m: Machine, s: MachineState)
    requires Fits(m, s)
    ensures Consume(m, s, []) == Done(s, true)
  {
  }

  // ---------- The LALR backend ----------

  // Whatever bytes were read, the state behind them is live exactly when no limit blocks it.
  lemma FedLives(cf: LalrDriver.Config, first: seq<set<nat>>, a: Lalr.Automaton, x: Word)
    requires LalrTheorems.Ready(cf, first, a) && LalrTheorems.Feed(cf, x).Done? && LalrTheorems.Feed(cf, x).value
    ensures var st := LalrTheorems.Feed(cf, x).state;
            && (LalrDriver.StackLives(cf, st) <==> !LalrLiveness.Blocked(cf, st))
            && (LalrTheorems.Roomy(cf, st) ==> LalrDriver.StackLives(cf, st))
  {
    hide *;
    var st := LalrTheorems.Feed(cf, x).state;
    var u, k, v := LalrTheorems.FeedSpells(cf, first, a, x);
    LalrTheorems.SpellsFacts(cf, st, u, k, v, x);
    LalrLiveness.LiveUnlessBlocked(cf, first, a, st, u, k, v);
    if LalrTheorems.Roomy(cf, st) {
      LalrLiveness.RoomyIsLive(cf, first, a, st, u, k, v);
    }
  }

  lemma ReachedLives(cf: LalrDriver.Config, first: seq<set<nat>>, a: Lalr.Automaton, x: Word, st: LalrDriver.State)
    requires LalrTheorems.Ready(cf, first, a)
    requires Consume(LalrMachine(cf), LalrAt(LalrDriver.Initial()), x) == Done(LalrAt(st), true)
    ensures LalrDriver.StackLives(cf, st) <==> !LalrLiveness.Blocked(cf, st)
    ensures LalrTheorems.Roomy(cf, st) ==> LalrDriver.StackLives(cf, st)
    ensures LalrRoom.Ample(cf, x) ==>
              (LalrDriver.StackLives(cf, st) <==> !LalrRoom.Tight(cf.compiled, cf.limits, st))
  {
    hide *;
    LalrRuns(cf, x);
    FedLives(cf, first, a, x);
    if LalrRoom.Ample(cf, x) {
      LalrRoom.AmpleTells(cf, first, a, x);
    }
  }

  // With the LALR backend a token is enabled exactly when committing it succeeds and the state behind it is not
  // blocked; with ample fuel that is, when the limits leave something open there, and with room for one more byte
  // behind it they do.
  lemma LalrMaskIsAdvance(cf: LalrDriver.Config, first: seq<set<nat>>, a: Lalr.Automaton, setup: Setup,
      tokens: map<Word, seq<nat>>, ids: seq<nat>, mask: seq<bv32>, id: nat)
    requires LalrTheorems.Ready(cf, first, a) && WellSet(setup) && Replay(setup, ids).Done?
    requires setup.source.MachineSource? && setup.source.machine == LalrMachine(cf)
    requires setup.source.start == LalrAt(LalrDriver.Initial())
    requires DerivedFrom(setup.source.vocabulary, tokens, setup.eos) && Indexes.EosReserved(tokens, setup.eos)
    requires var view := Replay(setup, ids).state;
             !view.finished && MaskIs(setup, view, mask) && |view.tokens| < setup.limits.maxCommittedTokens
    ensures var r := Take(setup, Replay(setup, ids).state, id);
            && (id == setup.eos ==> (Enabled(mask, id) <==> r.Done?))
            && (id != setup.eos ==>
               (Enabled(mask, id) <==> r.Done? && !LalrLiveness.Blocked(cf, r.state.place.at.lalr)))
            && (id != setup.eos && r.Done? && LalrTheorems.Roomy(cf, r.state.place.at.lalr) ==> Enabled(mask, id))
            && (id != setup.eos && r.Done? && LalrRoom.Ample(cf, r.state.bytes) ==>
                  (Enabled(mask, id) <==> !LalrRoom.Tight(cf.compiled, cf.limits, r.state.place.at.lalr)))
  {
    hide LalrTheorems.Ready, LalrTheorems.Roomy, LalrLiveness.Blocked, LalrRoom.Ample, LalrRoom.Tight, DerivedFrom,
      Indexes.EosReserved, MaskIs, WellSet, Enabled;
    var view := Replay(setup, ids).state;
    StructuralMaskExact(setup, tokens, view, mask, id);
    if id != setup.eos && Take(setup, view, id).Done? {
      TakeReplays(setup, ids, id);
      ReplayConsumes(setup, ids + [id]);
      hide Take, Replay, Consume, Recognizers.IsLive;
      ReachedLives(cf, first, a, Take(setup, view, id).state.bytes, Take(setup, view, id).state.place.at.lalr);
    }
  }

  lemma TakeReplays(setup: Setup, ids: seq<nat>, id: nat)
    requires WellSet(setup) && Replay(setup, ids).Done?
    ensures Replay(setup, ids + [id]) == Take(setup, Replay(setup, ids).state, id)
  {
    hide Take;
    assert (ids + [id])[..|ids|] == ids;
  }

  // ---------- The structural path ----------

  // The guide runs the backend over the vocabulary.
  ghost predicate Runs(setup: Setup, b: Backend, fuel: nat, tokens: map<Word, seq<nat>>) {
    && Opened(b, setup.limits).Done? && setup.source.MachineSource?
    && setup.source.machine == MachineFor(b, setup.limits, fuel) && setup.source.start == Opened(b, setup.limits).state
    && DerivedFrom(setup.source.vocabulary, tokens, setup.eos) && Indexes.EosReserved(tokens, setup.eos)
  }

  // Ample fuel behind the committed bytes and behind every token after them.
  ghost predicate AmpleAround(m: Machine, tokens: map<Word, seq<nat>>, bytes: Word) {
    Ample(m, bytes) && forall w <- tokens :: Ample(m, bytes + w)
  }

  // From some amount on, fuel is ample around any committed bytes.
  lemma SomeAmpleAround(b: Backend, limits: RuntimeLimits, meaning: Meaning, g: Grammar, tokens: map<Word, seq<nat>>,
      bytes: Word)
    returns (enough: nat)
    requires Represents(b, meaning, g) && GrammarReduction.TerminalsMatch(meaning, g)
    ensures forall fuel: nat :: fuel >= enough ==> AmpleAround(MachineFor(b, limits, fuel), tokens, bytes)
  {
    hide Represents, GrammarReduction.TerminalsMatch, Ample, MachineFor;
    var here := SomeAmple(b, limits, meaning, g, bytes);
    var behind := SomeAmpleAll(b, limits, meaning, g, bytes, tokens.Keys);
    enough := here + behind;
  }

  lemma {:induction false} SomeAmpleAll(b: Backend, limits: RuntimeLimits, meaning: Meaning, g: Grammar, bytes: Word,
      words: set<Word>) returns (enough: nat)
    requires Represents(b, meaning, g) && GrammarReduction.TerminalsMatch(meaning, g)
    ensures forall fuel: nat, w <- words :: fuel >= enough ==> Ample(MachineFor(b, limits, fuel), bytes + w)
    decreases words
  {
    hide Represents, GrammarReduction.TerminalsMatch, Ample, MachineFor;
    if words == {} {
      enough := 0;
    } else {
      var w :| w in words;
      var one := SomeAmple(b, limits, meaning, g, bytes + w);
      var others := SomeAmpleAll(b, limits, meaning, g, bytes, words - {w});
      enough := one + others;
      forall fuel: nat, v | v in words && fuel >= enough ensures Ample(MachineFor(b, limits, fuel), bytes + v) {
        assert v == w || v in words - {w};
      }
    }
  }

  // What a run over the committed bytes and a token tells, from the state behind the committed bytes.
  lemma RunOnTells(b: Backend, meaning: Meaning, g: Grammar, setup: Setup, fuel: nat, tokens: map<Word, seq<nat>>,
      ids: seq<nat>, w: Word)
    requires Represents(b, meaning, g) && GrammarReduction.TerminalsMatch(meaning, g) && Runs(setup, b, fuel, tokens)
    requires WellSet(setup) && Replay(setup, ids).Done?
    requires Ample(setup.source.machine, Replay(setup, ids).state.bytes + w)
    ensures var view, m := Replay(setup, ids).state, setup.source.machine;
            RunTells(m, Consume(m, view.place.at, w), meaning, g, view.bytes + w)
  {
    hide Represents, GrammarReduction.TerminalsMatch, RunTells, Consume, WellSet, Replay, DerivedFrom,
      Indexes.EosReserved, Opened, MachineFor, Ample;
    var view, m := Replay(setup, ids).state, setup.source.machine;
    ReplayConsumes(setup, ids);
    BackendTells(b, setup.limits, fuel, meaning, g, view.bytes + w);
    ConsumeSplit(m, setup.source.start, view.bytes, w);
  }

  lemma EndTells(b: Backend, meaning: Meaning, g: Grammar, setup: Setup, fuel: nat, tokens: map<Word, seq<nat>>,
      ids: seq<nat>)
    requires Represents(b, meaning, g) && GrammarReduction.TerminalsMatch(meaning, g) && Runs(setup, b, fuel, tokens)
    requires WellSet(setup) && Replay(setup, ids).Done?
    requires Ample(setup.source.machine, Replay(setup, ids).state.bytes)
    ensures var view, m := Replay(setup, ids).state, setup.source.machine;
            Recognizers.IsAccepting(m, view.place.at) <==>
              Grammars.Accepts(CfgFor(meaning, g), view.bytes) && RoomAtEnd(m, view.place.at)
  {
    hide Represents, GrammarReduction.TerminalsMatch, WellSet, Replay, Consume, Opened, MachineFor, DerivedFrom,
      Indexes.EosReserved, CfgFor, Grammars.Accepts, Extensible, Recognizers.IsAccepting, Recognizers.IsLive, RoomAtEnd,
      Unshut, Ample;
    var view, m := Replay(setup, ids).state, setup.source.machine;
    assert view.bytes + [] == view.bytes;
    RunOnTells(b, meaning, g, setup, fuel, tokens, ids, []);
    ConsumeNothing(m, view.place.at);
  }

  // Main result, structural path.  Over any committed tokens, and whenever the mask can be filled at all: a token is
  // enabled exactly when the committed bytes and its own start a word and the limits leave something open behind them,
  // the end exactly when the committed bytes are a word whose end has room.  Only LALR can be short of room.
  lemma MaskTells(b: Backend, meaning: Meaning, g: Grammar, setup: Setup, fuel: nat, tokens: map<Word, seq<nat>>,
      ids: seq<nat>, mask: seq<bv32>, id: nat)
    requires Represents(b, meaning, g) && GrammarReduction.TerminalsMatch(meaning, g) && Runs(setup, b, fuel, tokens)
    requires WellSet(setup) && Replay(setup, ids).Done?
    requires !Replay(setup, ids).state.finished && MaskIs(setup, Replay(setup, ids).state, mask)
    requires AmpleAround(setup.source.machine, tokens, Replay(setup, ids).state.bytes)
    ensures var view, m := Replay(setup, ids).state, setup.source.machine;
            && (forall w: Word :: HasToken(tokens, w, id) ==>
                  (Enabled(mask, id) <==>
                   Extensible(meaning, g, view.bytes + w) && Unshut(m, Consume(m, view.place.at, w).state)))
            && (id == setup.eos ==>
                  (Enabled(mask, id) <==>
                   Grammars.Accepts(CfgFor(meaning, g), view.bytes) && RoomAtEnd(m, view.place.at)))
            && (id != setup.eos && !InVocabulary(tokens, id) ==> !Enabled(mask, id))
  {
    hide Represents, GrammarReduction.TerminalsMatch, WellSet, Replay, Consume, Recognizers.IsAccepting,
      Recognizers.IsLive, MaskFrom, Enabled, Opened, MachineFor, RoomAtEnd, Unshut, Extensible, CfgFor, Ample;
    var view, v, m := Replay(setup, ids).state, setup.source.vocabulary, setup.source.machine;
    BlankHasNone(|mask|, id);
    MaskExact(v, tokens, setup.eos, m, setup.limits.maxMaskTrieEdges, view.place.at, Blank(|mask|), id);
    forall w: Word | HasToken(tokens, w, id)
      ensures Enabled(mask, id) <==>
              Extensible(meaning, g, view.bytes + w) && Unshut(m, Consume(m, view.place.at, w).state)
    {
      MaskTries(v, tokens, setup.eos, m, setup.limits.maxMaskTrieEdges, view.place.at, Blank(|mask|), w, id);
      TokenBytes(v, tokens, setup.eos, id);
      RunOnTells(b, meaning, g, setup, fuel, tokens, ids, w);
    }
    if id == setup.eos {
      EndTells(b, meaning, g, setup, fuel, tokens, ids);
    }
  }

  // ---------- Whole runs ----------

  // A token that ends the sequence is taken exactly in an accepting state, and leaves the bytes as they are.
  lemma EndTaken(setup: Setup, ids: seq<nat>)
    requires WellSet(setup) && Replay(setup, ids).Done?
    ensures var view := Replay(setup, ids).state;
            Replay(setup, ids + [setup.eos]).Done? <==>
              |ids| < setup.limits.maxCommittedTokens && !view.finished && IsFinal(setup.source, view.place)
  {
    hide IsFinal, WellSet;
    ReplayTokens(setup, ids);
    TakeReplays(setup, ids, setup.eos);
  }

  // No more tokens are taken than the limit allows, and without the end the guide is not finished.
  lemma {:induction false} ReplayWithin(setup: Setup, ids: seq<nat>)
    requires WellSet(setup) && Replay(setup, ids).Done?
    ensures |ids| <= setup.limits.maxCommittedTokens && (setup.eos !in ids ==> !Replay(setup, ids).state.finished)
  {
    hide WellSet, IsFinal, Move;
    if ids != [] {
      var front := ids[..|ids| - 1];
      ReplayTokens(setup, front);
      assert ids == front + [ids[|ids| - 1]];
    }
  }

  // Once the tokens fail, the end does not help.
  lemma NoEnd(setup: Setup, ids: seq<nat>)
    requires WellSet(setup) && Replay(setup, ids).Failed?
    ensures Replay(setup, ids + [setup.eos]).Failed?
  {
    hide Take;
    assert (ids + [setup.eos])[..|ids|] == ids;
  }

  // The committed bytes are those the tokens spell, and the recognizer took them; and if it takes them, so does the
  // guide.  A limit the recognizer meets is the guide's error.
  lemma {:induction false} SpelledReplays(setup: Setup, tokens: map<Word, seq<nat>>, ids: seq<nat>, words: seq<Word>)
    requires WellSet(setup) && setup.source.MachineSource?
    requires DerivedFrom(setup.source.vocabulary, tokens, setup.eos)
    requires Indexes.EosReserved(tokens, setup.eos) && Indexes.Spelled(tokens, ids, words)
    requires |ids| <= setup.limits.maxCommittedTokens
    ensures var x := Indexes.Concat(words);
            var r := Consume(setup.source.machine, setup.source.start, x);
            && (Replay(setup, ids).Done? <==> r.Done? && r.value)
            && (Replay(setup, ids).Done? ==> Replay(setup, ids).state == View(MachinePlace(r.state), false, ids, x))
            && (r.Failed? ==> Replay(setup, ids).error == r.error)
    decreases |ids|
  {
    hide DerivedFrom, Consume, Recognizers.IsAccepting;
    var m, start := setup.source.machine, setup.source.start;
    if ids == [] {
      ConsumeNothing(m, start);
    } else {
      var front, token, w := ids[..|ids| - 1], ids[|ids| - 1], words[|ids| - 1];
      assert Indexes.Spelled(tokens, front, words[..|front|]);
      SpelledReplays(setup, tokens, front, words[..|front|]);
      TokenBytes(setup.source.vocabulary, tokens, setup.eos, token);
      assert HasToken(tokens, w, token);
      ConcatMore(words[..|front|], w);
      assert words[..|front|] + [w] == words && front + [token] == ids;
      ConsumeSplit(m, start, Indexes.Concat(words[..|front|]), w);
    }
  }

  lemma {:induction false} ConcatMore(words: seq<Word>, w: Word)
    ensures Indexes.Concat(words + [w]) == Indexes.Concat(words) + w
    decreases |words|
  {
    if words == [] {
      assert ([w])[1..] == [];
    } else {
      ConcatMore(words[1..], w);
      assert (words + [w])[1..] == words[1..] + [w];
    }
  }

  // Safety of every run, with any fuel: what a guide has committed starts a word, unless it is nothing at all, and once
  // the guide is finished it is a word.
  lemma CommittedIsSound(b: Backend, meaning: Meaning, g: Grammar, setup: Setup, fuel: nat, tokens: map<Word, seq<nat>>,
      ids: seq<nat>)
    requires Represents(b, meaning, g) && GrammarReduction.TerminalsMatch(meaning, g) && Runs(setup, b, fuel, tokens)
    requires WellSet(setup) && Replay(setup, ids).Done?
    ensures var view := Replay(setup, ids).state;
            && (view.bytes == [] || Extensible(meaning, g, view.bytes))
            && (view.finished ==> Grammars.Accepts(CfgFor(meaning, g), view.bytes))
  {
    hide Represents, GrammarReduction.TerminalsMatch, WellSet, Consume, Recognizers.IsAccepting, Opened, MachineFor,
      Extensible, CfgFor, DerivedFrom, Indexes.EosReserved, Grammars.Accepts;
    var view, m := Replay(setup, ids).state, setup.source.machine;
    ReplayConsumes(setup, ids);
    BackendSound(b, setup.limits, fuel, meaning, g, view.bytes);
  }

  // Main result over whole runs: tokens are taken exactly when the bytes they spell start a word, and then the end
  // exactly when they are a word; unless a limit is met, and then the guide says so.
  lemma GuideExact(b: Backend, meaning: Meaning, g: Grammar, setup: Setup, fuel: nat, tokens: map<Word, seq<nat>>,
      ids: seq<nat>, words: seq<Word>)
    requires Represents(b, meaning, g) && GrammarReduction.TerminalsMatch(meaning, g) && Runs(setup, b, fuel, tokens)
    requires WellSet(setup) && Indexes.Spelled(tokens, ids, words) && Ample(setup.source.machine, Indexes.Concat(words))
    ensures var x := Indexes.Concat(words);
            var m, max := setup.source.machine, setup.limits.maxCommittedTokens;
            var r := Consume(m, setup.source.start, x);
            && (Replay(setup, ids).Done? <==>
                |ids| <= max && r.Done? && (x == [] || Extensible(meaning, g, x)))
            && (Replay(setup, ids + [setup.eos]).Done? <==>
                |ids| < max && r.Done? && Grammars.Accepts(CfgFor(meaning, g), x) && RoomAtEnd(m, r.state))
            && (|ids| <= max && r.Failed? ==> Replay(setup, ids).error == r.error && Overrun(setup.limits, r.error))
  {
    hide Represents, GrammarReduction.TerminalsMatch, Consume, Recognizers.IsAccepting, Recognizers.IsLive, Opened,
      MachineFor, RoomAtEnd, Unshut, CfgFor, DerivedFrom, Indexes.EosReserved, Take, Grammars.Accepts, Extensible,
      Ample, Replay;
    var x, max := Indexes.Concat(words), setup.limits.maxCommittedTokens;
    BackendTells(b, setup.limits, fuel, meaning, g, x);
    WordStarts(meaning, g, x);
    if Replay(setup, ids).Done? {
      ReplayWithin(setup, ids);
      EndTaken(setup, ids);
    } else {
      NoEnd(setup, ids);
    }
    if |ids| <= max {
      SpelledReplays(setup, tokens, ids, words);
    }
  }

  // ---------- The index path ----------

  // What projecting a whole automaton gives: nothing at all for the empty language.
  ghost predicate IndexOf(index: Indexes.Index, d: T.ByteDfa, tokens: map<Word, seq<nat>>, eos: nat) {
    if !d.IsLive(0) && !d.IsAccepting(0) then index == Indexes.Index(0, {}, map[], eos)
    else Indexes.ProjectionOf(index, d, tokens, eos)
  }

  ghost predicate OnIndex(setup: Setup, d: T.ByteDfa, tokens: map<Word, seq<nat>>) {
    && WellSet(setup) && setup.source.IndexSource? && IndexOf(setup.source.index, d, tokens, setup.eos)
    && Indexes.EosReserved(tokens, setup.eos)
  }

  // The bytes lead to the state the guide is in.
  predicate LedTo(d: T.ByteDfa, x: Word, s: nat) {
    T.Run(T.Dfa(d), T.AtState(0), x) == Some(T.AtState(s))
  }

  lemma RunNothing(d: T.ByteDfa)
    ensures LedTo(d, [], 0)
  {
  }

  // In a state that tokens reach, an id leads on exactly as its bytes do.
  lemma NextLeads(setup: Setup, d: T.ByteDfa, tokens: map<Word, seq<nat>>, s: nat, id: nat)
    requires OnIndex(setup, d, tokens) && (d.IsLive(0) || d.IsAccepting(0)) && Indexes.Reachable(d, tokens, s)
    ensures forall q: nat :: setup.source.index.NextState(s, id) == Some(q) <==> Indexes.TokenLeads(d, tokens, s, id, q)
  {
    hide WellSet, Indexes.Reachable, Indexes.Stuck, Indexes.LeadsLive;
    var row := setup.source.index.Row(s) - {setup.eos};
    assert Indexes.RowExact(d, tokens, s, row);
    forall q: nat
      ensures setup.source.index.NextState(s, id) == Some(q) <==> Indexes.TokenLeads(d, tokens, s, id, q)
    {
      assert (id in row && row[id] == q) <==> Indexes.TokenLeads(d, tokens, s, id, q);
    }
  }

  // The tokens of a run spell bytes that lead to its state.
  lemma {:induction false} IndexReplays(setup: Setup, d: T.ByteDfa, tokens: map<Word, seq<nat>>, ids: seq<nat>)
      returns (words: seq<Word>)
    requires OnIndex(setup, d, tokens) && Replay(setup, ids).Done? && !Replay(setup, ids).state.finished
    ensures var s := Replay(setup, ids).state.place.state;
            && Indexes.Spelled(tokens, ids, words) && LedTo(d, Indexes.Concat(words), s)
            && Indexes.Reachable(d, tokens, s) && (ids != [] ==> d.IsLive(s))
    decreases |ids|
  {
    hide WellSet, Indexes.Reachable, LedTo, Indexes.ProjectionOf;
    if ids == [] {
      words := [];
      RunNothing(d);
      Indexes.StartReachable(d, tokens);
      StartsAtZero(setup, d, tokens);
    } else {
      var front, token := ids[..|ids| - 1], ids[|ids| - 1];
      var before := IndexReplays(setup, d, tokens, front);
      var s := Replay(setup, front).state.place.state;
      NextLeads(setup, d, tokens, s, token);
      hide IndexOf;
      var q := setup.source.index.NextState(s, token).value;
      assert Indexes.TokenLeads(d, tokens, s, token, q);
      var w: Word :| HasToken(tokens, w, token) && Indexes.LeadsLive(d, s, w, q);
      assert Indexes.Steps(d, tokens, s, q);
      Indexes.ReachesOn(d, tokens, s, q);
      words := before + [w];
      ConcatMore(before, w);
      LedOn(d, Indexes.Concat(before), s, w, q);
      assert front + [token] == ids;
    }
  }

  lemma StartsAtZero(setup: Setup, d: T.ByteDfa, tokens: map<Word, seq<nat>>)
    requires OnIndex(setup, d, tokens)
    ensures Replay(setup, []).state.place == IndexPlace(0)
  {
    hide WellSet, Indexes.Reachable, Indexes.RowExact, Indexes.Stuck;
  }

  lemma LedOn(d: T.ByteDfa, x: Word, s: nat, w: Word, q: nat)
    requires LedTo(d, x, s) && Indexes.LeadsLive(d, s, w, q)
    ensures LedTo(d, x + w, q)
  {
    hide T.Run;
    T.RunAppend(T.Dfa(d), T.AtState(0), x, w);
  }

  // Behind the bytes of a state, the words that lead to a live state are those that start a word of the language.
  lemma LeadsExtend(d: T.ByteDfa, meaning: Meaning, g: Grammar, s: nat, x: Word, w: Word)
    requires Represents(Backend.WholeDfa(d), meaning, g) && LedTo(d, x, s)
    ensures (exists q: nat :: Indexes.LeadsLive(d, s, w, q)) <==> Extensible(meaning, g, x + w)
  {
    hide T.Run, CfgFor;
    T.RunAppend(T.Dfa(d), T.AtState(0), x, w);
    if q: nat :| Indexes.LeadsLive(d, s, w, q) {
      var y := LiveHas(d, q);
      T.RunAppend(T.Dfa(d), T.AtState(0), x + w, y);
      assert T.Matches(T.Dfa(d), x + w + y);
      assert Grammars.Accepts(CfgFor(meaning, g), x + w + y);
    }
    if Extensible(meaning, g, x + w) {
      var y: Word :| Grammars.Accepts(CfgFor(meaning, g), x + w + y);
      assert T.Matches(T.Dfa(d), x + w + y);
      T.RunAppend(T.Dfa(d), T.AtState(0), x + w, y);
      Indexes.RunIsState(d, s, w);
      var q := T.Run(T.Dfa(d), T.AtState(s), w).value.state;
      assert T.AcceptsFrom(T.Dfa(d), T.AtState(q), y);
      assert Indexes.LeadsLive(d, s, w, q);
    }
  }

  // The same for the empty rest.
  lemma LiveExtends(d: T.ByteDfa, meaning: Meaning, g: Grammar, s: nat, x: Word)
    requires Represents(Backend.WholeDfa(d), meaning, g) && LedTo(d, x, s)
    ensures d.IsLive(s) <==> Extensible(meaning, g, x)
    ensures d.IsAccepting(s) <==> Grammars.Accepts(CfgFor(meaning, g), x)
  {
    hide T.LivenessExact, CfgFor, Extensible, Grammars.Accepts;
    LeadsExtend(d, meaning, g, s, x, []);
    assert x + [] == x;
    assert Indexes.LeadsLive(d, s, [], s) <==> d.IsLive(s);
    assert T.Matches(T.Dfa(d), x) <==> d.IsAccepting(s);
  }

  // Without words the automaton is dead at once.
  lemma DeadHasNone(d: T.ByteDfa, meaning: Meaning, g: Grammar, x: Word)
    requires Represents(Backend.WholeDfa(d), meaning, g) && !d.IsLive(0)
    ensures !Extensible(meaning, g, x)
  {
    hide T.Run, CfgFor, Grammars.Accepts;
    forall y: Word ensures !Grammars.Accepts(CfgFor(meaning, g), x + y) {
      assert T.Matches(T.Dfa(d), x + y) <==> Grammars.Accepts(CfgFor(meaning, g), x + y);
      assert !T.AcceptsFrom(T.Dfa(d), T.AtState(0), x + y);
    }
  }

  // Tokens that spell the start of a word are taken, and lead where their bytes lead.
  lemma {:induction false} SpellingReplays(setup: Setup, d: T.ByteDfa, meaning: Meaning, g: Grammar,
      tokens: map<Word, seq<nat>>, ids: seq<nat>, words: seq<Word>)
    requires OnIndex(setup, d, tokens) && Represents(Backend.WholeDfa(d), meaning, g)
    requires Indexes.Spelled(tokens, ids, words) && |ids| <= setup.limits.maxCommittedTokens
    requires ids == [] || Extensible(meaning, g, Indexes.Concat(words))
    ensures Replay(setup, ids).Done? && !Replay(setup, ids).state.finished
    ensures LedTo(d, Indexes.Concat(words), Replay(setup, ids).state.place.state)
    decreases |ids|
  {
    hide WellSet, Indexes.Reachable, LedTo, Represents, Extensible, Indexes.ProjectionOf;
    if ids == [] {
      RunNothing(d);
      StartsAtZero(setup, d, tokens);
    } else {
      var front, token, w := ids[..|ids| - 1], ids[|ids| - 1], words[|ids| - 1];
      var before := words[..|front|];
      assert Indexes.Spelled(tokens, front, before);
      ConcatMore(before, w);
      assert before + [w] == words && front + [token] == ids;
      ExtensibleFront(meaning, g, Indexes.Concat(before), w);
      SpellingReplays(setup, d, meaning, g, tokens, front, before);
      SpelledOn(setup, d, meaning, g, tokens, front, Indexes.Concat(before), token, w);
    }
  }

  lemma SpelledOn(setup: Setup, d: T.ByteDfa, meaning: Meaning, g: Grammar, tokens: map<Word, seq<nat>>,
      ids: seq<nat>, x: Word, id: nat, w: Word)
    requires OnIndex(setup, d, tokens) && Represents(Backend.WholeDfa(d), meaning, g)
    requires Replay(setup, ids).Done? && !Replay(setup, ids).state.finished && |ids| < setup.limits.maxCommittedTokens
    requires LedTo(d, x, Replay(setup, ids).state.place.state) && HasToken(tokens, w, id)
    requires Extensible(meaning, g, x + w)
    ensures Replay(setup, ids + [id]).Done? && !Replay(setup, ids + [id]).state.finished
    ensures LedTo(d, x + w, Replay(setup, ids + [id]).state.place.state)
  {
    hide WellSet, Indexes.Reachable, LedTo, Represents, Extensible, Indexes.ProjectionOf, Indexes.LeadsLive;
    var s := Replay(setup, ids).state.place.state;
    if !d.IsLive(0) {
      DeadHasNone(d, meaning, g, x + w);
    }
    var before := IndexReplays(setup, d, tokens, ids);
    LeadsExtend(d, meaning, g, s, x, w);
    var q: nat :| Indexes.LeadsLive(d, s, w, q);
    assert Indexes.TokenLeads(d, tokens, s, id, q);
    NextLeads(setup, d, tokens, s, id);
    ReplayTokens(setup, ids);
    TakeReplays(setup, ids, id);
    LedOn(d, x, s, w, q);
  }

  lemma ExtensibleFront(meaning: Meaning, g: Grammar, x: Word, w: Word)
    ensures Extensible(meaning, g, x + w) ==> Extensible(meaning, g, x)
  {
    hide CfgFor, Grammars.Accepts;
    if y: Word :| Grammars.Accepts(CfgFor(meaning, g), x + w + y) {
      assert x + w + y == x + (w + y);
    }
  }

  // Some spelling of the id keeps the bytes the start of a word.
  ghost predicate KeepsGoing(meaning: Meaning, g: Grammar, tokens: map<Word, seq<nat>>, x: Word, id: nat) {
    exists w: Word :: HasToken(tokens, w, id) && Extensible(meaning, g, x + w)
  }

  lemma NextKeepsGoing(d: T.ByteDfa, meaning: Meaning, g: Grammar, setup: Setup, tokens: map<Word, seq<nat>>, s: nat,
      x: Word, id: nat)
    requires Represents(Backend.WholeDfa(d), meaning, g) && OnIndex(setup, d, tokens)
    requires (d.IsLive(0) || d.IsAccepting(0)) && Indexes.Reachable(d, tokens, s) && LedTo(d, x, s)
    ensures setup.source.index.NextState(s, id).Some? <==> KeepsGoing(meaning, g, tokens, x, id)
  {
    hide WellSet, CfgFor, LedTo, Indexes.Reachable, Extensible, Represents, Indexes.LeadsLive, IndexOf;
    NextLeads(setup, d, tokens, s, id);
    var next := setup.source.index.NextState(s, id);
    if next.Some? {
      assert Indexes.TokenLeads(d, tokens, s, id, next.value);
      var w: Word :| HasToken(tokens, w, id) && Indexes.LeadsLive(d, s, w, next.value);
      LeadsExtend(d, meaning, g, s, x, w);
    }
    if KeepsGoing(meaning, g, tokens, x, id) {
      var w: Word :| HasToken(tokens, w, id) && Extensible(meaning, g, x + w);
      LeadsExtend(d, meaning, g, s, x, w);
      var q: nat :| Indexes.LeadsLive(d, s, w, q);
      assert Indexes.TokenLeads(d, tokens, s, id, q);
    }
  }

  // Main result, index path: a token is enabled exactly when the committed bytes and its own start a word, the end
  // exactly when the committed bytes are one.  No limit stands in the way, and an id may be spelled in more ways.
  lemma IndexMaskTells(d: T.ByteDfa, meaning: Meaning, g: Grammar, setup: Setup, tokens: map<Word, seq<nat>>,
      ids: seq<nat>, words: seq<Word>, mask: seq<bv32>, id: nat)
    requires Represents(Backend.WholeDfa(d), meaning, g) && OnIndex(setup, d, tokens)
    requires Replay(setup, ids).Done? && !Replay(setup, ids).state.finished
    requires Indexes.Spelled(tokens, ids, words) && (ids == [] || Extensible(meaning, g, Indexes.Concat(words)))
    requires MaskIs(setup, Replay(setup, ids).state, mask)
    ensures var x := Indexes.Concat(words);
            && (id != setup.eos ==> (Enabled(mask, id) <==> KeepsGoing(meaning, g, tokens, x, id)))
            && (id == setup.eos ==> (Enabled(mask, id) <==> Grammars.Accepts(CfgFor(meaning, g), x)))
  {
    hide WellSet, Replay, Enabled, CfgFor, LedTo, Indexes.Reachable, Extensible, Represents, Grammars.Accepts,
      Indexes.LeadsLive;
    ReplayWithin(setup, ids);
    SpellingReplays(setup, d, meaning, g, tokens, ids, words);
    var again := IndexReplays(setup, d, tokens, ids);
    var index, s, x := setup.source.index, Replay(setup, ids).state.place.state, Indexes.Concat(words);
    LiveExtends(d, meaning, g, s, x);
    if d.IsLive(0) || d.IsAccepting(0) {
      NextKeepsGoing(d, meaning, g, setup, tokens, s, x, id);
    } else {
      forall w: Word ensures !Extensible(meaning, g, x + w) {
        DeadHasNone(d, meaning, g, x + w);
      }
      DeadHasNone(d, meaning, g, x);
      WordStarts(meaning, g, x);
    }
  }

  // Main result over whole runs, index path: tokens are taken exactly when some bytes they spell start a word, and then
  // the end exactly when some bytes they spell are one; only the number of tokens is limited.
  lemma IndexGuideExact(d: T.ByteDfa, meaning: Meaning, g: Grammar, setup: Setup, tokens: map<Word, seq<nat>>,
      ids: seq<nat>)
    requires Represents(Backend.WholeDfa(d), meaning, g) && OnIndex(setup, d, tokens) && setup.eos !in ids
    ensures Replay(setup, ids).Done? <==>
              && |ids| <= setup.limits.maxCommittedTokens
              && (ids == [] ||
                  exists words :: Indexes.Spelled(tokens, ids, words) && Extensible(meaning, g, Indexes.Concat(words)))
    ensures Replay(setup, ids + [setup.eos]).Done? <==>
              && |ids| < setup.limits.maxCommittedTokens
              && exists words ::
                   Indexes.Spelled(tokens, ids, words) && Grammars.Accepts(CfgFor(meaning, g), Indexes.Concat(words))
  {
    hide WellSet, CfgFor, LedTo, Indexes.Reachable, Take, Extensible, Grammars.Accepts, Represents, Replay, IndexOf;
    if Replay(setup, ids).Done? {
      ReplayWithin(setup, ids);
      var words := IndexReplays(setup, d, tokens, ids);
      LiveExtends(d, meaning, g, Replay(setup, ids).state.place.state, Indexes.Concat(words));
      EndTaken(setup, ids);
      FinalAccepts(setup, d, tokens, ids);
    } else {
      NoEnd(setup, ids);
    }
    if ids == [] {
      NothingSpelled(tokens);
    }
    forall words | Indexes.Spelled(tokens, ids, words) && |ids| <= setup.limits.maxCommittedTokens
      ensures ids == [] || Extensible(meaning, g, Indexes.Concat(words)) ==> Replay(setup, ids).Done?
      ensures Grammars.Accepts(CfgFor(meaning, g), Indexes.Concat(words)) ==>
                Replay(setup, ids).Done? && d.IsAccepting(Replay(setup, ids).state.place.state)
    {
      WordStarts(meaning, g, Indexes.Concat(words));
      if ids == [] || Extensible(meaning, g, Indexes.Concat(words)) {
        SpellingReplays(setup, d, meaning, g, tokens, ids, words);
        LiveExtends(d, meaning, g, Replay(setup, ids).state.place.state, Indexes.Concat(words));
      }
    }
  }

  lemma NothingSpelled(tokens: map<Word, seq<nat>>)
    ensures Indexes.Spelled(tokens, [], [])
  {
  }

  lemma FinalAccepts(setup: Setup, d: T.ByteDfa, tokens: map<Word, seq<nat>>, ids: seq<nat>)
    requires OnIndex(setup, d, tokens) && Replay(setup, ids).Done? && !Replay(setup, ids).state.finished
    ensures var place := Replay(setup, ids).state.place;
            IsFinal(setup.source, place) <==> d.IsAccepting(place.state)
  {
    hide WellSet, Indexes.Reachable, LedTo, Indexes.RowExact, Indexes.Stuck, Replay;
    var words := IndexReplays(setup, d, tokens, ids);
    if !d.IsLive(0) && !d.IsAccepting(0) {
      NothingTaken(setup, d, tokens, ids);
    }
  }

  // The index of the empty language takes no token.
  lemma NothingTaken(setup: Setup, d: T.ByteDfa, tokens: map<Word, seq<nat>>, ids: seq<nat>)
    requires OnIndex(setup, d, tokens) && !d.IsLive(0) && !d.IsAccepting(0)
    requires Replay(setup, ids).Done? && !Replay(setup, ids).state.finished
    ensures Replay(setup, ids).state.place.state == 0
  {
    hide WellSet;
    if ids != [] {
      var front := ids[..|ids| - 1];
      assert setup.source.index.Row(Replay(setup, front).state.place.state) == map[];
    }
  }
}
