/**
 Collapsing certified regions into terminals: what stays a nonterminal is renumbered, everything else on a
 right-hand side becomes one compiled terminal per language, and every retained nonterminal derives what it did.
 */
module ResidualCollapse {
  import opened Grammars
  import opened CompileErrors
  import opened Terminals
  import opened RegularExpressions
  import opened SchemaGrammars
  import opened Flags
  import opened Counting
  import opened ByteAutomata

  // ---------- Nullable nonterminals ----------

  predicate AllNullable(nullable: seq<bool>, rhs: seq<Symbol>) {
    forall s <- rhs :: s.Nonterminal? && s.id < |nullable| && nullable[s.id]
  }

  ghost predicate TerminalsNonempty(c: Cfg) {
    forall t: nat :: t < |c.languages| ==> [] !in c.languages[t]
  }

  ghost predicate NullableSound(c: Cfg, nullable: seq<bool>) {
    forall a: nat :: a < |nullable| && nullable[a] ==> Generates(c, a, [])
  }

  ghost predicate NullableClosed(productions: seq<Production>, nullable: seq<bool>, upto: nat) {
    forall p: nat :: p < upto && p < |productions| && AllNullable(nullable, productions[p].rhs) ==>
      productions[p].lhs < |nullable| && nullable[productions[p].lhs]
  }

  ghost predicate NullableFor(c: Cfg, nullable: seq<bool>) {
    && NullableSound(c, nullable)
    && (TerminalsNonempty(c) ==> forall a: nat :: a < |nullable| && Generates(c, a, []) ==> nullable[a])
  }

  lemma {:induction false} AllNullableDerives(c: Cfg, nullable: seq<bool>, alpha: seq<Symbol>)
    requires NullableSound(c, nullable) && AllNullable(nullable, alpha)
    ensures Derives(c, alpha, [])
    decreases |alpha|
  {
    if alpha == [] {
      DerivesEmpty(c);
    } else {
      assert alpha[0] in alpha && alpha == [alpha[0]] + alpha[1..];
      AllNullableDerives(c, nullable, alpha[1..]);
      DerivesNonterminal(c, alpha[0].id, []);
      DerivesConcat(c, [alpha[0]], [], alpha[1..], []);
    }
  }

  lemma {:induction false} EmptyTree(c: Cfg, nullable: seq<bool>, t: Tree, s: Symbol)
    requires TerminalsNonempty(c) && NullableClosed(c.productions, nullable, |c.productions|) && TreeFor(c, t, s)
    requires Yield(t) == []
    ensures s.Nonterminal? && s.id < |nullable| && nullable[s.id]
    decreases t, 1
  {
    match t
    case Leaf(_, _) =>
    case Node(p, kids) => EmptyForest(c, nullable, kids, c.productions[p].rhs);
  }

  lemma {:induction false} EmptyForest(c: Cfg, nullable: seq<bool>, f: Forest, alpha: seq<Symbol>)
    requires TerminalsNonempty(c) && NullableClosed(c.productions, nullable, |c.productions|) && ForestFor(c, f, alpha)
    requires ForestYield(f) == []
    ensures AllNullable(nullable, alpha)
    decreases f, 0
  {
    match f
    case Nil =>
    case Cons(t, rest) =>
      EmptyTree(c, nullable, t, alpha[0]);
      EmptyForest(c, nullable, rest, alpha[1..]);
      assert forall s :: s in alpha <==> s == alpha[0] || s in alpha[1..];
  }

  lemma ClosedComplete(c: Cfg, nullable: seq<bool>)
    requires NullableSound(c, nullable) && NullableClosed(c.productions, nullable, |c.productions|)
    ensures NullableFor(c, nullable)
  {
    if TerminalsNonempty(c) {
      forall a: nat | a < |nullable| && Generates(c, a, []) ensures nullable[a] {
        var t: Tree :| TreeFor(c, t, Nonterminal(a)) && Yield(t) == [];
        EmptyTree(c, nullable, t, Nonterminal(a));
      }
    }
  }

  lemma NullableMore(c: Cfg, nullable: seq<bool>, p: nat)
    requires NullableSound(c, nullable) && p < |c.productions| && AllNullable(nullable, c.productions[p].rhs)
    requires c.productions[p].lhs < |nullable|
    ensures NullableSound(c, nullable[c.productions[p].lhs := true])
  {
    AllNullableDerives(c, nullable, c.productions[p].rhs);
    DerivesProduction(c, p, []);
  }

  // The nonterminals that derive the empty word, when no terminal matches it.
  method NullableNonterminals(ghost c: Cfg, count: nat, productions: seq<Production>) returns (nullable: seq<bool>)
    requires c.productions == productions && forall p: nat :: p < |productions| ==> productions[p].lhs < count
    ensures |nullable| == count && NullableFor(c, nullable)
  {
    hide NullableSound, NullableFor;
    nullable := seq(count, _ => false);
    NoneNullable(c, count);
    var changed := true;
    while changed
      invariant |nullable| == count && NullableSound(c, nullable)
      invariant !changed ==> NullableClosed(productions, nullable, |productions|)
      decreases Unset(nullable), changed
    {
      changed := false;
      ghost var before := nullable;
      for p := 0 to |productions|
        invariant |nullable| == count && NullableSound(c, nullable)
        invariant if changed then Unset(nullable) < Unset(before)
                  else nullable == before && NullableClosed(productions, nullable, p)
      {
        var lhs := productions[p].lhs;
        if !nullable[lhs] && AllNullable(nullable, productions[p].rhs) {
          NullableMore(c, nullable, p);
          UnsetLess(nullable, lhs);
          nullable := nullable[lhs := true];
          changed := true;
        }
      }
    }
    ClosedComplete(c, nullable);
  }

  lemma NoneNullable(c: Cfg, count: nat)
    ensures NullableSound(c, seq(count, _ => false))
  {
  }

  // ---------- What is retained ----------

  ghost predicate RetainsClosed(g: Grammar, nullable: seq<bool>, retained: seq<bool>, upto: nat)
    requires InRange(g) && |nullable| == |retained| == g.nonterminals
  {
    forall p: nat ::
      p < upto && p < |g.productions| && g.productions[p].lhs < |retained| && retained[g.productions[p].lhs] ==>
      ClosedFor(nullable, retained, g.productions[p].rhs)
  }

  ghost predicate ClosedFor(nullable: seq<bool>, retained: seq<bool>, rhs: seq<Symbol>)
    requires |nullable| == |retained|
  {
    forall s <- rhs :: s.Nonterminal? && s.id < |nullable| && nullable[s.id] ==> retained[s.id]
  }

  ghost predicate Grows(before: seq<bool>, after: seq<bool>) {
    |before| == |after| && forall a: nat :: a < |before| && before[a] ==> after[a]
  }

  // Nullable nonterminals that a retained nonterminal mentions are retained with it.
  method CloseRetained(g: Grammar, nullable: seq<bool>, initial: seq<bool>) returns (retained: seq<bool>)
    requires InRange(g) && |nullable| == |initial| == g.nonterminals
    ensures Grows(initial, retained) && RetainsClosed(g, nullable, retained, |g.productions|)
    ensures forall a: nat :: a < |retained| && retained[a] && !initial[a] ==> nullable[a]
  {
    hide InRange;
    retained := initial;
    var changed := true;
    while changed
      invariant Grows(initial, retained)
      invariant forall a: nat :: a < |retained| && retained[a] && !initial[a] ==> nullable[a]
      invariant !changed ==> RetainsClosed(g, nullable, retained, |g.productions|)
      decreases Unset(retained), changed
    {
      changed := false;
      ghost var before := retained;
      for p := 0 to |g.productions|
        invariant Grows(initial, retained)
        invariant forall a: nat :: a < |retained| && retained[a] && !initial[a] ==> nullable[a]
        invariant if changed then Unset(retained) < Unset(before)
                  else retained == before && RetainsClosed(g, nullable, retained, p)
      {
        ProductionKnown(g, p);
        var rhs := g.productions[p].rhs;
        if retained[g.productions[p].lhs] {
          for i := 0 to |rhs|
            invariant Grows(initial, retained)
            invariant forall a: nat :: a < |retained| && retained[a] && !initial[a] ==> nullable[a]
            invariant if changed then Unset(retained) < Unset(before)
                      else
                        && retained == before && RetainsClosed(g, nullable, retained, p)
                        && ClosedFor(nullable, retained, rhs[..i])
          {
            assert rhs[i] in rhs && rhs[..i + 1] == rhs[..i] + [rhs[i]];
            if rhs[i].Nonterminal? && nullable[rhs[i].id] && !retained[rhs[i].id] {
              UnsetLess(retained, rhs[i].id);
              retained := retained[rhs[i].id := true];
              changed := true;
            }
          }
          assert rhs[..|rhs|] == rhs;
        }
      }
    }
  }

  // ---------- The terminal table ----------

  datatype TerminalLanguage = LiteralBytes(bytes: Word) | Expression(expression: RegularExpression)

  ghost predicate Speaks(meaning: Meaning, l: TerminalLanguage, w: Word) {
    match l
    case LiteralBytes(bytes) => w == bytes
    case Expression(e) => Denotes(Forwards(meaning), e, w)
  }

  ghost predicate TerminalSpeaks(meaning: Meaning, t: CompiledTerminal, l: TerminalLanguage) {
    WellFormedTerminal(t) && forall w: Word :: Matches(t, w) <==> Speaks(meaning, l, w)
  }

  // A terminal may have as many states as one automaton, and as all terminals together.
  function StatesAllowed(limits: GrammarLimits): StateLimit {
    if limits.maxTerminalDfaStates < limits.maxDfaStates then limits.maxTerminalDfaStates else limits.maxDfaStates
  }

  ghost function Total(sizes: seq<nat>): nat {
    if sizes == [] then 0 else Total(sizes[..|sizes| - 1]) + sizes[|sizes| - 1]
  }

  function StatesIn(t: CompiledTerminal): nat {
    match t
    case Literal(_) => 0
    case Dfa(d) => |d.transitions|
  }

  function Sizes(terminals: seq<CompiledTerminal>): seq<nat> {
    seq(|terminals|, i requires 0 <= i < |terminals| => StatesIn(terminals[i]))
  }

  // A literal has no automaton, an expression that of the library, renumbered.
  ghost predicate SizeOf(compile: Compiler, l: TerminalLanguage, n: nat) {
    match l
    case LiteralBytes(_) => n == 0
    case Expression(e) => StateCount(compile, e, n)
  }

  ghost predicate SizesOf(compile: Compiler, languages: seq<TerminalLanguage>, sizes: seq<nat>) {
    && |sizes| == |languages| && Distinct(languages)
    && forall i: nat :: i < |sizes| ==> SizeOf(compile, languages[i], sizes[i])
  }

  // The automata of these languages have more states together than all terminals may have.
  ghost predicate TotalOver(compile: Compiler, limits: GrammarLimits, languages: seq<TerminalLanguage>,
      error: CompileError)
  {
    exists sizes ::
      && SizesOf(compile, languages, sizes) && Total(sizes) > limits.maxTerminalDfaStates
      && error == ResourceLimitExceeded(TerminalCompilation, Total(sizes), limits.maxTerminalDfaStates)
  }

  // The automaton of one language is too large, or the library fails on it.
  ghost predicate LanguageFails(compile: Compiler, limits: GrammarLimits, l: TerminalLanguage, error: CompileError) {
    l.Expression? &&
    exists first :: CompileFails(compile, l.expression, StatesAllowed(limits), first) && error == Restaged(first)
  }

  ghost predicate Entered(meaning: Meaning, terminals: seq<CompiledTerminal>, languages: seq<TerminalLanguage>,
      cache: map<TerminalLanguage, nat>)
  {
    && |languages| == |terminals|
    && (forall i: nat :: i < |terminals| ==> TerminalSpeaks(meaning, terminals[i], languages[i]))
    && (forall i: nat :: i < |languages| ==> languages[i] in cache && cache[languages[i]] == i)
    && (forall l <- cache :: cache[l] < |languages| && languages[cache[l]] == l)
  }

  lemma OneMoreEntry(meaning: Meaning, terminals: seq<CompiledTerminal>, languages: seq<TerminalLanguage>,
      cache: map<TerminalLanguage, nat>, l: TerminalLanguage, t: CompiledTerminal)
    requires Entered(meaning, terminals, languages, cache) && l !in cache && TerminalSpeaks(meaning, t, l)
    ensures Entered(meaning, terminals + [t], languages + [l], cache[l := |terminals|]) && l !in languages
  {
    hide TerminalSpeaks;
  }

  class TerminalTable {
    var terminals: seq<CompiledTerminal>
    var cache: map<TerminalLanguage, nat>
    var dfaStates: nat
    ghost var languages: seq<TerminalLanguage>

    // One terminal per cached language, each matching exactly its language and never the empty word.
    ghost predicate Valid(meaning: Meaning)
      reads this
    {
      Entered(meaning, terminals, languages, cache)
    }

    // The states of all its automata are counted.
    ghost predicate Counted(compile: Compiler)
      reads this
    {
      SizesOf(compile, languages, Sizes(terminals)) && dfaStates == Total(Sizes(terminals))
    }

    constructor ()
      ensures forall meaning :: Valid(meaning)
      ensures forall compile :: Counted(compile)
      ensures terminals == [] && languages == [] && dfaStates == 0
    {
      terminals, cache, dfaStates, languages := [], map[], 0, [];
    }

    ghost predicate Extends(terms: seq<CompiledTerminal>, langs: seq<TerminalLanguage>)
      reads this
    {
      terms <= terminals && langs <= languages
    }

    method Add(ghost meaning: Meaning, ghost compile: Compiler, l: TerminalLanguage, t: CompiledTerminal)
        returns (id: nat)
      requires Valid(meaning) && l !in cache && TerminalSpeaks(meaning, t, l)
      requires SizesOf(compile, languages, Sizes(terminals)) && SizeOf(compile, l, StatesIn(t))
      requires dfaStates == Total(Sizes(terminals)) + StatesIn(t)
      modifies this
      ensures Valid(meaning) && Counted(compile)
      ensures terminals == old(terminals) + [t] && languages == old(languages) + [l]
      ensures id == |old(terminals)| && dfaStates == old(dfaStates)
    {
      OneMoreEntry(meaning, terminals, languages, cache, l, t);
      OneMoreSize(compile, languages, terminals, l, t);
      hide Entered, TerminalSpeaks, SizesOf, SizeOf, Total, Sizes;
      id := |terminals|;
      terminals := terminals + [t];
      cache := cache[l := id];
      languages := languages + [l];
    }

    // The terminal of a language: looked up, or compiled and entered once.  A language with the empty word fails.
    method CompileTerminal(ghost meaning: Meaning, compile: Compiler, limits: GrammarLimits, l: TerminalLanguage)
        returns (r: Result<nat>)
      requires Valid(meaning) && Counted(compile) && CompilesExactly(meaning, compile)
      modifies this
      ensures Valid(meaning) && old(terminals) <= terminals && old(languages) <= languages
      ensures r.Ok? ==> Counted(compile) && (dfaStates == old(dfaStates) || dfaStates <= limits.maxTerminalDfaStates)
      ensures r.Ok? ==> r.value < |terminals| && languages[r.value] == l && l in cache && cache[l] == r.value
      ensures r.Ok? ==> languages == old(languages) || languages == old(languages) + [l]
      ensures r.Err? ==> languages == old(languages)
      ensures r.Err? ==>
              || LanguageFails(compile, limits, l, r.error)
              || TotalOver(compile, limits, old(languages) + [l], r.error)
              || (r.error.InternalError? && Speaks(meaning, l, []))
    {
      hide Speaks, TerminalSpeaks, DfaFor, CompileFails, Counted, StateCount, SizesOf, Total, Sizes;
      if l in cache {
        return Ok(cache[l]);
      }
      assert l !in languages;
      TableCounted(this, compile);
      match l {
        case LiteralBytes(bytes) =>
          if bytes == [] {
            EmptyLiteral(meaning);
            return Err(InternalError("empty literal remained as a parser terminal"));
          }
          LiteralSpeaks(meaning, bytes);
          var id := Add(meaning, compile, l, Literal(bytes));
          return Ok(id);
        case Expression(e) =>
          var compiled := CompileByteDfa(meaning, compile, StatesAllowed(limits), e);
          if compiled.Err? {
            return Err(Restaged(compiled.error));
          }
          var dfa := compiled.value;
          DfaSpeaks(meaning, dfa, e);
          if dfa.IsAccepting(0) {
            return Err(InternalError("nullable regular region was collapsed into a parser terminal"));
          }
          OneMoreSize(compile, languages, terminals, l, Dfa(dfa));
          dfaStates := dfaStates + |dfa.transitions|;
          if dfaStates > limits.maxTerminalDfaStates {
            return Err(ResourceLimitExceeded(TerminalCompilation, dfaStates, limits.maxTerminalDfaStates));
          }
          var id := Add(meaning, compile, l, Dfa(dfa));
          return Ok(id);
      }
    }
  }

  lemma TableCounted(table: TerminalTable, compile: Compiler)
    requires table.Counted(compile)
    ensures SizesOf(compile, table.languages, Sizes(table.terminals))
    ensures table.dfaStates == Total(Sizes(table.terminals))
  {
  }

  lemma OneMoreSize(compile: Compiler, languages: seq<TerminalLanguage>, terminals: seq<CompiledTerminal>,
      l: TerminalLanguage, t: CompiledTerminal)
    requires SizesOf(compile, languages, Sizes(terminals)) && l !in languages && SizeOf(compile, l, StatesIn(t))
    ensures SizesOf(compile, languages + [l], Sizes(terminals + [t]))
    ensures Total(Sizes(terminals + [t])) == Total(Sizes(terminals)) + StatesIn(t)
  {
    hide SizeOf;
    assert Sizes(terminals + [t]) == Sizes(terminals) + [StatesIn(t)];
    assert (Sizes(terminals) + [StatesIn(t)])[..|terminals|] == Sizes(terminals);
  }

  lemma EmptyLiteral(meaning: Meaning)
    ensures Speaks(meaning, LiteralBytes([]), [])
  {
  }

  lemma LiteralSpeaks(meaning: Meaning, bytes: Word)
    requires bytes != []
    ensures TerminalSpeaks(meaning, Literal(bytes), LiteralBytes(bytes))
  {
    LiteralLanguage(bytes);
    forall w: Word ensures Matches(Literal(bytes), w) <==> w == bytes {
      assert Matches(Literal(bytes), w) <==> w in Language(Literal(bytes));
    }
  }

  // The automaton accepts in its start state exactly when the expression has the empty word.
  lemma DfaSpeaks(meaning: Meaning, dfa: ByteDfa, e: RegularExpression)
    requires DfaFor(meaning, dfa, e)
    ensures if dfa.IsAccepting(0) then Speaks(meaning, Expression(e), [])
            else TerminalSpeaks(meaning, Dfa(dfa), Expression(e))
  {
    assert Matches(Dfa(dfa), []) <==> dfa.IsAccepting(0);
  }
}
