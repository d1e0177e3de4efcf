/**
 Guided generation, end to end: for a backend compiled from a schema, the mask of a guide enables exactly the tokens
 that keep the committed bytes a prefix of a string of the schema, and the end exactly on the strings.
 */
module SchemaMasks {
  import opened Grammars
  import opened Runtime
  import opened RegularExpressions
  import opened SchemaGrammars
  import opened JsonSchemas
  import opened Recognizers
  import opened Tries
  import opened Masks
  import opened Guides
  import opened Preparation
  import opened Compilation
  import opened GuidedBackends
  import T = Terminals
  import GrammarReduction
  import Indexes

  // What compilation promises about a backend, whatever the schema admits.
  ghost predicate CompiledFor(b: Backend, g: Grammar, arena: Arena, quote: Quoting, meaning: Meaning) {
    && Represents(b, meaning, g) && StandsFor(g, arena, quote, meaning)
    && GrammarReduction.TerminalsMatch(meaning, g)
  }

  // The mask of a structural guide.
  lemma SchemaMaskExact(b: Backend, g: Grammar, arena: Arena, quote: Quoting, meaning: Meaning, setup: Setup, fuel: nat,
      tokens: map<Word, seq<nat>>, ids: seq<nat>, mask: seq<bv32>, id: nat)
    requires CompiledFor(b, g, arena, quote, meaning) && Runs(setup, b, fuel, tokens) && WellSet(setup)
    requires Replay(setup, ids).Done?
    requires !Replay(setup, ids).state.finished && MaskIs(setup, Replay(setup, ids).state, mask)
    requires AmpleAround(setup.source.machine, tokens, Replay(setup, ids).state.bytes)
    ensures var view, m := Replay(setup, ids).state, setup.source.machine;
            && (forall w: Word :: HasToken(tokens, w, id) ==>
                  (Enabled(mask, id) <==>
                   PrefixAdmitted(arena, quote, meaning, view.bytes + w)
                   && Unshut(m, Consume(m, view.place.at, w).state)))
            && (id == setup.eos ==>
                  (Enabled(mask, id) <==>
                   SchemaAdmits(arena, quote, meaning, view.bytes) && RoomAtEnd(m, view.place.at)))
            && (id != setup.eos && !InVocabulary(tokens, id) ==> !Enabled(mask, id))
  {
    hide Represents, StandsFor, GrammarReduction.TerminalsMatch, Opened, MachineFor, DerivedFrom, Indexes.EosReserved,
      WellSet, Replay, Unshut, RoomAtEnd, Enabled, PrefixAdmitted, SchemaAdmits, Extensible, CfgFor, Grammars.Accepts,
      MaskFrom, AmpleAround;
    MaskTells(b, meaning, g, setup, fuel, tokens, ids, mask, id);
    var view, m := Replay(setup, ids).state, setup.source.machine;
    SameWords(g, arena, quote, meaning, view.bytes);
    forall w: Word | HasToken(tokens, w, id)
      ensures Enabled(mask, id) <==>
              PrefixAdmitted(arena, quote, meaning, view.bytes + w) && Unshut(m, Consume(m, view.place.at, w).state)
    {
      SamePrefixes(g, arena, quote, meaning, view.bytes + w);
    }
  }

  // Some spelling of the id keeps the bytes a prefix of a string of the schema.
  ghost predicate StaysAdmitted(arena: Arena, quote: Quoting, meaning: Meaning, tokens: map<Word, seq<nat>>, x: Word,
      id: nat)
  {
    exists w: Word :: HasToken(tokens, w, id) && PrefixAdmitted(arena, quote, meaning, x + w)
  }

  // The mask of an index guide.
  lemma SchemaIndexMaskExact(d: T.ByteDfa, g: Grammar, arena: Arena, quote: Quoting, meaning: Meaning, setup: Setup,
      tokens: map<Word, seq<nat>>, ids: seq<nat>, words: seq<Word>, mask: seq<bv32>, id: nat)
    requires CompiledFor(Backend.WholeDfa(d), g, arena, quote, meaning) && OnIndex(setup, d, tokens)
    requires Replay(setup, ids).Done? && !Replay(setup, ids).state.finished
    requires Indexes.Spelled(tokens, ids, words)
    requires ids == [] || PrefixAdmitted(arena, quote, meaning, Indexes.Concat(words))
    requires MaskIs(setup, Replay(setup, ids).state, mask)
    ensures var x := Indexes.Concat(words);
            && (id != setup.eos ==> (Enabled(mask, id) <==> StaysAdmitted(arena, quote, meaning, tokens, x, id)))
            && (id == setup.eos ==> (Enabled(mask, id) <==> SchemaAdmits(arena, quote, meaning, x)))
  {
    hide Represents, StandsFor, GrammarReduction.TerminalsMatch, OnIndex, Replay, Enabled, PrefixAdmitted, SchemaAdmits,
      Extensible, CfgFor, Grammars.Accepts, MaskIs;
    var x := Indexes.Concat(words);
    SamePrefixes(g, arena, quote, meaning, x);
    IndexMaskTells(d, meaning, g, setup, tokens, ids, words, mask, id);
    SameWords(g, arena, quote, meaning, x);
    forall w: Word ensures Extensible(meaning, g, x + w) <==> PrefixAdmitted(arena, quote, meaning, x + w) {
      SamePrefixes(g, arena, quote, meaning, x + w);
    }
  }

  // Safety: whatever tokens a structural guide has committed, their bytes start a string of the schema, unless there
  // are none, and once the guide is finished they are one.
  lemma GeneratedIsAdmitted(b: Backend, g: Grammar, arena: Arena, quote: Quoting, meaning: Meaning, setup: Setup,
      fuel: nat, tokens: map<Word, seq<nat>>, ids: seq<nat>)
    requires CompiledFor(b, g, arena, quote, meaning) && Runs(setup, b, fuel, tokens) && WellSet(setup)
    requires Replay(setup, ids).Done?
    ensures var view := Replay(setup, ids).state;
            && (view.bytes == [] || PrefixAdmitted(arena, quote, meaning, view.bytes))
            && (view.finished ==> SchemaAdmits(arena, quote, meaning, view.bytes))
  {
    hide Represents, StandsFor, GrammarReduction.TerminalsMatch, Runs, WellSet, Replay, PrefixAdmitted, SchemaAdmits,
      Extensible, CfgFor, Grammars.Accepts;
    CommittedIsSound(b, meaning, g, setup, fuel, tokens, ids);
    SameWords(g, arena, quote, meaning, Replay(setup, ids).state.bytes);
    SamePrefixes(g, arena, quote, meaning, Replay(setup, ids).state.bytes);
  }

  // Exactness over whole runs: tokens are taken exactly when they spell the start of a string of the schema, and then
  // the end exactly when they spell one; unless a limit is met, and then the guide says so.
  lemma SchemaGuideExact(b: Backend, g: Grammar, arena: Arena, quote: Quoting, meaning: Meaning, setup: Setup,
      fuel: nat, tokens: map<Word, seq<nat>>, ids: seq<nat>, words: seq<Word>)
    requires CompiledFor(b, g, arena, quote, meaning) && Runs(setup, b, fuel, tokens) && WellSet(setup)
    requires Indexes.Spelled(tokens, ids, words) && Ample(setup.source.machine, Indexes.Concat(words))
    ensures var x := Indexes.Concat(words);
            var m, max := setup.source.machine, setup.limits.maxCommittedTokens;
            var r := Consume(m, setup.source.start, x);
            && (Replay(setup, ids).Done? <==>
                |ids| <= max && r.Done? && (x == [] || PrefixAdmitted(arena, quote, meaning, x)))
            && (Replay(setup, ids + [setup.eos]).Done? <==>
                |ids| < max && r.Done? && SchemaAdmits(arena, quote, meaning, x) && RoomAtEnd(m, r.state))
            && (|ids| <= max && r.Failed? ==> Replay(setup, ids).error == r.error && Overrun(setup.limits, r.error))
  {
    hide Represents, StandsFor, GrammarReduction.TerminalsMatch, Runs, WellSet, Replay, PrefixAdmitted, SchemaAdmits,
      Extensible, CfgFor, Grammars.Accepts, Consume, RoomAtEnd, Ample, Fits;
    GuideExact(b, meaning, g, setup, fuel, tokens, ids, words);
    SameWords(g, arena, quote, meaning, Indexes.Concat(words));
    SamePrefixes(g, arena, quote, meaning, Indexes.Concat(words));
  }

  // The same with the index of a whole automaton, where only the number of tokens is limited and an id may be spelled
  // in more ways.
  lemma SchemaIndexGuideExact(d: T.ByteDfa, g: Grammar, arena: Arena, quote: Quoting, meaning: Meaning, setup: Setup,
      tokens: map<Word, seq<nat>>, ids: seq<nat>)
    requires CompiledFor(Backend.WholeDfa(d), g, arena, quote, meaning) && OnIndex(setup, d, tokens)
    requires setup.eos !in ids
    ensures Replay(setup, ids).Done? <==>
              && |ids| <= setup.limits.maxCommittedTokens
              && (ids == [] || SomeSpelling(tokens, ids, x => PrefixAdmitted(arena, quote, meaning, x)))
    ensures Replay(setup, ids + [setup.eos]).Done? <==>
              && |ids| < setup.limits.maxCommittedTokens
              && SomeSpelling(tokens, ids, x => SchemaAdmits(arena, quote, meaning, x))
  {
    hide Represents, StandsFor, GrammarReduction.TerminalsMatch, OnIndex, Replay, PrefixAdmitted, SchemaAdmits,
      Extensible, CfgFor, Grammars.Accepts;
    IndexGuideExact(d, meaning, g, setup, tokens, ids);
    forall x: Word
      ensures Extensible(meaning, g, x) <==> PrefixAdmitted(arena, quote, meaning, x)
      ensures Grammars.Accepts(CfgFor(meaning, g), x) <==> SchemaAdmits(arena, quote, meaning, x)
    {
      SamePrefixes(g, arena, quote, meaning, x);
      SameWords(g, arena, quote, meaning, x);
    }
  }

  // The tokens spell some bytes of which `p` holds.
  ghost predicate SomeSpelling(tokens: map<Word, seq<nat>>, ids: seq<nat>, p: Word -> bool) {
    exists words :: Indexes.Spelled(tokens, ids, words) && p(Indexes.Concat(words))
  }
}
