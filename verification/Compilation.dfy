/**
 From a schema to a running recognizer: whatever backend is picked, it is alive exactly on the prefixes of the
 strings the schema admits and accepting exactly on those strings.
 */
module Compilation {
  import opened Grammars
  import opened CompileErrors
  import opened Runtime
  import opened RegularExpressions
  import opened SchemaGrammars
  import opened JsonSchemas
  import opened ResidualCollapse
  import opened ByteAutomata
  import opened Recognizers
  import opened Preparation
  import opened Lowerings
  import ArrayLowering
  import LoweredRules
  import GrammarReduction
  import GrammarReducer
  import ResidualBuild

  // The strings of the root schema: those in every family that satisfies the schemas.
  ghost predicate SchemaAdmits(arena: Arena, quote: Quoting, meaning: Meaning, w: Word) {
    forall strings: Strings :: Satisfies(arena, meaning, quote, strings) ==> w in strings(arena.root)
  }

  ghost predicate StandsFor(g: Grammar, arena: Arena, quote: Quoting, meaning: Meaning) {
    forall w: Word :: Accepts(CfgFor(meaning, g), w) <==> SchemaAdmits(arena, quote, meaning, w)
  }

  // The lowered grammar generates the strings of its root schema.
  lemma LoweredStandsFor(g: Grammar, arena: Arena, quote: Quoting, meaning: Meaning)
    requires Solves(arena, quote, meaning, CfgFor(meaning, g)) && Least(arena, quote, meaning, CfgFor(meaning, g))
    requires ArenaKnown(arena) && g.start == arena.root
    ensures StandsFor(g, arena, quote, meaning)
  {
    hide Admits, KindKnown;
    var c := CfgFor(meaning, g);
    var generated := ArrayLowering.Generated(c);
    GeneratedSatisfies(c, arena, quote, meaning);
    forall w: Word ensures Accepts(c, w) <==> SchemaAdmits(arena, quote, meaning, w) {
      if SchemaAdmits(arena, quote, meaning, w) {
        assert w in generated(arena.root);
      }
    }
  }

  lemma GeneratedSatisfies(c: Cfg, arena: Arena, quote: Quoting, meaning: Meaning)
    requires Solves(arena, quote, meaning, c)
    ensures Satisfies(arena, meaning, quote, ArrayLowering.Generated(c))
  {
    hide Admits;
  }

  // ---------- The scalar patterns ----------

  // No scalar pattern matches the empty string.
  ghost predicate ScalarsNonempty(meaning: Meaning) {
    forall kind :: [] !in meaning(PatternText(kind))
  }

  // Every scalar pattern matches something.
  ghost predicate ScalarsMatch(meaning: Meaning) {
    forall kind :: ScalarMatches(meaning, kind)
  }

  ghost predicate ScalarMatches(meaning: Meaning, kind: NormalizedSchema) {
    exists w: Word :: w in meaning(PatternText(kind))
  }

  lemma PlainNonempty(meaning: Meaning, g: Grammar)
    requires ScalarsNonempty(meaning) && forall t <- g.terminals :: LoweredRules.Plain(t)
    ensures !ResidualBuild.SomeTerminalEmpty(meaning, g)
  {
    hide PatternText;
    forall t | t in g.terminals ensures [] !in t.Language(meaning) {
      assert LoweredRules.Plain(t);
    }
  }

  lemma PlainMatch(meaning: Meaning, g: Grammar)
    requires ScalarsMatch(meaning) && forall t <- g.terminals :: LoweredRules.Plain(t)
    ensures GrammarReduction.TerminalsMatch(meaning, g)
  {
    hide PatternText;
    forall t | t in g.terminals ensures exists w: Word :: w in t.Language(meaning) {
      assert LoweredRules.Plain(t);
      if t.LiteralTerminal? {
        var bytes: Word := t.bytes;
        assert bytes in t.Language(meaning);
      } else {
        var kind :| t.forward == PatternText(kind);
        assert ScalarMatches(meaning, kind);
        var w: Word :| w in meaning(PatternText(kind));
        assert w in t.Language(meaning);
      }
    }
  }

  // ---------- The whole compilation ----------

  ghost predicate SomeUnsupported(arena: Arena) {
    exists kind :: kind in arena.kinds && Unsupported(arena.kinds, kind)
  }

  // A limit that the schemas can go over, or a schema without exact grammar.
  ghost predicate LowerFails(arena: Arena, limits: GrammarLimits, e: CompileError) {
    || (GrammarOver(limits, e) && e.observed <= ArenaCost(arena))
    || (e.UnsupportedCombination? && SomeUnsupported(arena))
  }

  // `g` is the lowered grammar of the schemas, `reduced` what reduction makes of it.
  ghost predicate LoweredTo(arena: Arena, quote: Quoting, meaning: Meaning, limits: GrammarLimits, g: Grammar,
      reduced: Grammar)
  {
    && StandsFor(g, arena, quote, meaning) && GrammarWithin(g, limits)
    && (ScalarsMatch(meaning) ==> GrammarReduction.TerminalsMatch(meaning, g))
    && GrammarReducer.ReducedFrom(meaning, g, reduced)
  }

  // The backend stands for the schema, and is the one the policy and the reduced grammar ask for.
  ghost predicate CompiledTo(b: Backend, arena: Arena, quote: Quoting, meaning: Meaning, policy: Policy,
      grammarLimits: GrammarLimits, limits: CompileLimits)
  {
    exists g, reduced ::
      LoweredTo(arena, quote, meaning, grammarLimits, g, reduced) && Represents(b, meaning, g)
      && Chosen(policy, meaning, reduced, limits, b)
  }

  // No backend for the lowered grammar.
  ghost predicate NotPrepared(arena: Arena, quote: Quoting, meaning: Meaning, policy: Policy, compile: Compiler,
      grammarLimits: GrammarLimits, limits: CompileLimits, e: CompileError)
  {
    exists g, reduced ::
      LoweredTo(arena, quote, meaning, grammarLimits, g, reduced)
      && PrepareFails(policy, meaning, reduced, compile, grammarLimits, limits, e)
  }

  // The backend stands for the schema, and every error is a limit, the expression compiler's, a schema without exact
  // grammar, or a forced backend that does not exist.
  method Compile(ghost meaning: Meaning, arena: Arena, quote: Quoting, policy: Policy, compile: Compiler,
      grammarLimits: GrammarLimits, limits: CompileLimits)
    returns (r: Result<Backend>)
    requires ArenaKnown(arena) && QuotesSomething(quote) && CompilesExactly(meaning, compile)
    requires ScalarsNonempty(meaning)
    ensures r.Ok? ==> CompiledTo(r.value, arena, quote, meaning, policy, grammarLimits, limits)
    ensures SomeUnsupported(arena) ==> r.Err?
    ensures r.Err? ==> LowerFails(arena, grammarLimits, r.error)
                       || NotPrepared(arena, quote, meaning, policy, compile, grammarLimits, limits, r.error)
  {
    hide GrammarReducer.ReducedFrom, GrammarWithin, Represents, StandsFor, InRange, CompilesExactly, GrammarOver,
      Chosen, PrepareFails, ResidualBuild.SomeTerminalEmpty, Solves, Least, LoweredRules.Plain, QuotesSomething,
      ScalarsMatch, ScalarsNonempty, GrammarReduction.TerminalsMatch, ArenaKnown;
    var lowered := Lower(arena, quote, grammarLimits);
    if lowered.Err? {
      return Err(lowered.error);
    }
    ghost var g := lowered.value;
    LoweredStandsFor(g, arena, quote, meaning);
    PlainNonempty(meaning, g);
    if ScalarsMatch(meaning) {
      PlainMatch(meaning, g);
    }
    var grammar := new GrammarReducer.LoweredGrammar(lowered.value);
    r := Prepare(meaning, grammar, policy, compile, grammarLimits, limits);
    assert LoweredTo(arena, quote, meaning, grammarLimits, g, grammar.Value());
  }

  // ---------- Main result ----------

  // The bytes extend to a string of the schema.
  ghost predicate PrefixAdmitted(arena: Arena, quote: Quoting, meaning: Meaning, x: Word) {
    exists y: Word :: SchemaAdmits(arena, quote, meaning, x + y)
  }

  // What a run over `x` tells about the schema.
  ghost predicate RunTellsSchema(m: Machine, r: Outcome<MachineState, bool>, arena: Arena, quote: Quoting,
      meaning: Meaning, x: Word)
    requires Fits(m, r.state)
  {
    && (r.Failed? ==> Overrun(LimitsOf(m), r.error))
    && (r.Done? ==> (r.value <==> x == [] || PrefixAdmitted(arena, quote, meaning, x)))
    && (r.Done? && r.value ==>
          (Recognizers.IsAccepting(m, r.state) <==> SchemaAdmits(arena, quote, meaning, x) && RoomAtEnd(m, r.state)))
    && (r.Done? && r.value && x != [] ==> (Recognizers.IsLive(m, r.state) <==> Unshut(m, r.state)))
  }

  lemma SameWords(g: Grammar, arena: Arena, quote: Quoting, meaning: Meaning, x: Word)
    requires StandsFor(g, arena, quote, meaning)
    ensures Accepts(CfgFor(meaning, g), x) <==> SchemaAdmits(arena, quote, meaning, x)
  {
    hide CfgFor, Accepts, SchemaAdmits;
  }

  lemma SamePrefixes(g: Grammar, arena: Arena, quote: Quoting, meaning: Meaning, x: Word)
    requires StandsFor(g, arena, quote, meaning)
    ensures PrefixAdmitted(arena, quote, meaning, x) <==> Extensible(meaning, g, x)
  {
    hide SchemaAdmits;
    if y: Word :| SchemaAdmits(arena, quote, meaning, x + y) {
      assert Accepts(CfgFor(meaning, g), x + y);
    }
    if y: Word :| Accepts(CfgFor(meaning, g), x + y) {
      assert SchemaAdmits(arena, quote, meaning, x + y);
    }
  }

  // For every schema, whether it admits anything or not, and every backend compiled from it: from some amount of fuel
  // on, a run fails only on a limit; otherwise it is alive exactly on the empty input and the prefixes of the schema's
  // strings, and accepting exactly on the strings whose end has room.
  lemma CompiledExact(b: Backend, limits: RuntimeLimits, g: Grammar, arena: Arena, quote: Quoting, meaning: Meaning,
      x: Word)
    returns (enough: nat)
    requires Represents(b, meaning, g) && StandsFor(g, arena, quote, meaning)
    requires GrammarReduction.TerminalsMatch(meaning, g) && Opened(b, limits).Done?
    ensures forall fuel: nat :: fuel >= enough ==>
              var m, s := MachineFor(b, limits, fuel), Opened(b, limits).state;
              Ample(m, x) && Fits(m, s) && RunTellsSchema(m, Consume(m, s, x), arena, quote, meaning, x)
  {
    hide Represents, StandsFor, SchemaAdmits, Consume, Opened, MachineFor, GrammarReduction.TerminalsMatch,
      Recognizers.IsAccepting, Recognizers.IsLive, RoomAtEnd, Unshut, CfgFor, Ample, PrefixAdmitted, Extensible,
      Accepts;
    enough := BackendExact(b, limits, meaning, g, x);
    SamePrefixes(g, arena, quote, meaning, x);
    SameWords(g, arena, quote, meaning, x);
  }
}
