/**
 Certifying components of the dependency graph as regular: acyclic components by substitution, right-linear
 ones by Kleene elimination, left-linear ones by elimination on reversals, reversed back.  Whatever is certified
 denotes exactly the language of its nonterminal.
 */
module Certification {
  import opened Grammars
  import opened RegularExpressions
  import opened Reversals
  import opened SchemaGrammars

  datatype FailureReason =
    | MultipleRecursiveOccurrences | MixedLinearOrientation | RecursiveSymbolInInterior
    | UncertifiedDependency | UnsupportedRegularOperation

  datatype CertificateKind = Acyclic | RightLinear | LeftLinear

  datatype Attempt<T> = Certified(value: T) | Uncertified(reason: FailureReason)

  type Expressions = seq<Option<RegularExpression>>

  // The expression denotes exactly the words the nonterminal derives.
  ghost predicate ExactFor(meaning: Meaning, g: Grammar, a: nat, e: RegularExpression) {
    forall w: Word :: Denotes(Forwards(meaning), e, w) <==> Generates(CfgFor(meaning, g), a, w)
  }

  ghost predicate AllExact(meaning: Meaning, g: Grammar, es: Expressions) {
    |es| == g.nonterminals && forall a: nat :: a < |es| && es[a].Some? ==> ExactFor(meaning, g, a, es[a].value)
  }

  predicate InComponent(analysis: SccAnalysis, c: nat, s: Symbol) {
    s.Nonterminal? && s.id < |analysis.componentOf| && analysis.componentOf[s.id] == c
  }

  // ---------- The expression of a right-hand side ----------

  // The expression of one symbol outside the component.
  function PartFor(g: Grammar, analysis: SccAnalysis, c: nat, es: Expressions, s: Symbol): Attempt<RegularExpression>
    requires |es| == g.nonterminals && SymbolInRange(s, g.nonterminals, |g.terminals|)
  {
    match s
    case Terminal(t) => Certified(g.terminals[t].AsAtom())
    case Nonterminal(a) =>
      if InComponent(analysis, c, s) then Uncertified(RecursiveSymbolInInterior)
      else if es[a].None? then Uncertified(UncertifiedDependency)
      else Certified(es[a].value)
  }

  // The part turned round, when the component is solved on reversals.
  function Turned(reversed: bool, part: Attempt<RegularExpression>): Attempt<RegularExpression> {
    if part.Uncertified? || !reversed then part
    else if Reversed(part.value).None? then Uncertified(UnsupportedRegularOperation)
    else Certified(Reversed(part.value).value)
  }

  function Oriented(reversed: bool, w: Word): Word {
    if reversed then Rev(w) else w
  }

  // How the expressions of a component are read while it is solved.
  ghost function ReadingFor(meaning: Meaning, reversed: bool): Reading {
    if reversed then Mirrored(Forwards(meaning)) else Forwards(meaning)
  }

  lemma PartExact(meaning: Meaning, g: Grammar, analysis: SccAnalysis, c: nat, es: Expressions, s: Symbol, w: Word)
    requires AllExact(meaning, g, es) && SymbolInRange(s, g.nonterminals, |g.terminals|)
    requires PartFor(g, analysis, c, es, s).Certified?
    ensures var e := PartFor(g, analysis, c, es, s).value;
            Denotes(Forwards(meaning), e, w) <==> Derives(CfgFor(meaning, g), [s], w)
  {
    match s
    case Terminal(t) =>
      AtomDenotes(meaning, g.terminals[t], w);
      DerivesTerminal(CfgFor(meaning, g), t, w);
    case Nonterminal(a) =>
      assert ExactFor(meaning, g, a, es[a].value);
      DerivesNonterminal(CfgFor(meaning, g), a, w);
  }

  lemma TurnedExact(meaning: Meaning, g: Grammar, analysis: SccAnalysis, c: nat, es: Expressions, s: Symbol,
      reversed: bool, w: Word)
    requires AllExact(meaning, g, es) && SymbolInRange(s, g.nonterminals, |g.terminals|)
    requires Turned(reversed, PartFor(g, analysis, c, es, s)).Certified?
    ensures var e := Turned(reversed, PartFor(g, analysis, c, es, s)).value;
            && (reversed ==> Reversible(e))
            && (Denotes(ReadingFor(meaning, reversed), e, w) <==>
               Derives(CfgFor(meaning, g), [s], Oriented(reversed, w)))
  {
    AllExactLength(meaning, g, es);
    hide Denotes, AllExact;
    PartExact(meaning, g, analysis, c, es, s, Oriented(reversed, w));
    var e := PartFor(g, analysis, c, es, s).value;
    if reversed {
      ReversedIff(e);
      ReversedReversible(e);
      ReversedDenotes(Mirrored(Forwards(meaning)), e, w);
      MirroredTwiceDenotes(Forwards(meaning), e, Rev(w));
    }
  }

  // The parts so far, in the order they are visited, denote the symbols visited so far.
  ghost predicate PartsExact(meaning: Meaning, g: Grammar, symbols: seq<Symbol>, reversed: bool,
      parts: seq<RegularExpression>)
  {
    && (reversed ==> EachReversible(parts))
    && forall w: Word :: DenotesAll(ReadingFor(meaning, reversed), parts, w) <==>
         Derives(CfgFor(meaning, g), symbols, Oriented(reversed, w))
  }

  lemma NoParts(meaning: Meaning, g: Grammar, reversed: bool)
    ensures PartsExact(meaning, g, [], reversed, [])
  {
    DerivesEmpty(CfgFor(meaning, g));
    forall w: Word ensures w == [] <==> Derives(CfgFor(meaning, g), [], Oriented(reversed, w)) {
      RevRev(w);
      if Derives(CfgFor(meaning, g), [], Oriented(reversed, w)) {
        var f: Forest :| ForestFor(CfgFor(meaning, g), f, []) && ForestYield(f) == Oriented(reversed, w);
      }
    }
  }

  lemma DerivesCut(cfg: Cfg, alpha: seq<Symbol>, beta: seq<Symbol>, w: Word) returns (k: nat)
    requires Derives(cfg, alpha + beta, w)
    ensures k <= |w| && Derives(cfg, alpha, w[..k]) && Derives(cfg, beta, w[k..])
  {
    var f: Forest :| ForestFor(cfg, f, alpha + beta) && ForestYield(f) == w;
    var l, r := SplitForest(cfg, f, alpha + beta, |alpha|);
    assert (alpha + beta)[..|alpha|] == alpha && (alpha + beta)[|alpha|..] == beta;
    k := |ForestYield(l)|;
    assert w[..k] == ForestYield(l) && w[k..] == ForestYield(r);
  }

  // Visiting one more symbol: to the right when going forward, to the left when reversed.
  lemma PartsMore(meaning: Meaning, g: Grammar, symbols: seq<Symbol>, reversed: bool, parts: seq<RegularExpression>,
      s: Symbol, e: RegularExpression)
    requires PartsExact(meaning, g, symbols, reversed, parts)
    requires reversed ==> Reversible(e)
    requires forall w: Word :: Denotes(ReadingFor(meaning, reversed), e, w) <==>
               Derives(CfgFor(meaning, g), [s], Oriented(reversed, w))
    ensures PartsExact(meaning, g, if reversed then [s] + symbols else symbols + [s], reversed, parts + [e])
  {
    hide Denotes, DenotesAll, Reversible, ReadingFor, Derives;
    var cfg := CfgFor(meaning, g);
    var more := if reversed then [s] + symbols else symbols + [s];
    forall w: Word
      ensures DenotesAll(ReadingFor(meaning, reversed), parts + [e], w) <==> Derives(cfg, more, Oriented(reversed, w))
    {
      if DenotesAll(ReadingFor(meaning, reversed), parts + [e], w) {
        PartsMoreSound(meaning, g, symbols, reversed, parts, s, e, w);
      }
      if Derives(cfg, more, Oriented(reversed, w)) {
        PartsMoreComplete(meaning, g, symbols, reversed, parts, s, e, w);
      }
    }
    assert forall x <- parts + [e] :: x in parts || x == e;
  }

  lemma PartsMoreSound(meaning: Meaning, g: Grammar, symbols: seq<Symbol>, reversed: bool,
      parts: seq<RegularExpression>, s: Symbol, e: RegularExpression, w: Word)
    requires PartsExact(meaning, g, symbols, reversed, parts)
    requires DenotesAll(ReadingFor(meaning, reversed), parts + [e], w)
    requires forall w: Word :: Denotes(ReadingFor(meaning, reversed), e, w) <==>
               Derives(CfgFor(meaning, g), [s], Oriented(reversed, w))
    ensures Derives(CfgFor(meaning, g), if reversed then [s] + symbols else symbols + [s], Oriented(reversed, w))
  {
    hide Denotes, DenotesAll, Reversible, ReadingFor, Derives, CfgFor;
    var cfg := CfgFor(meaning, g);
    var k := DenotesSplit(ReadingFor(meaning, reversed), parts, [e], w);
    DenotesOne(ReadingFor(meaning, reversed), e, w[k..]);
    assert w[..k] + w[k..] == w;
    if reversed {
      RevAppend(w[..k], w[k..]);
      DerivesConcat(cfg, [s], Rev(w[k..]), symbols, Rev(w[..k]));
    } else {
      DerivesConcat(cfg, symbols, w[..k], [s], w[k..]);
    }
  }

  lemma PartsMoreComplete(meaning: Meaning, g: Grammar, symbols: seq<Symbol>, reversed: bool,
      parts: seq<RegularExpression>, s: Symbol, e: RegularExpression, w: Word)
    requires PartsExact(meaning, g, symbols, reversed, parts)
    requires Derives(CfgFor(meaning, g), if reversed then [s] + symbols else symbols + [s], Oriented(reversed, w))
    requires forall w: Word :: Denotes(ReadingFor(meaning, reversed), e, w) <==>
               Derives(CfgFor(meaning, g), [s], Oriented(reversed, w))
    ensures DenotesAll(ReadingFor(meaning, reversed), parts + [e], w)
  {
    hide Denotes, DenotesAll, Reversible, ReadingFor, Derives, CfgFor;
    var cfg := CfgFor(meaning, g);
    var k: nat;
    if reversed {
      var j := DerivesCut(cfg, [s], symbols, Rev(w));
      RevRev(w);
      k := |w| - j;
      RevSplit(w, k);
    } else {
      k := DerivesCut(cfg, symbols, [s], w);
    }
    DenotesOne(ReadingFor(meaning, reversed), e, w[k..]);
    DenotesAppend(ReadingFor(meaning, reversed), parts, [e], w[..k], w[k..]);
    assert w[..k] + w[k..] == w;
  }

  // The concatenation of the parts, from the left or, reversed, from the right.
  method RhsExpression(ghost meaning: Meaning, g: Grammar, analysis: SccAnalysis, c: nat, rhs: seq<Symbol>,
      es: Expressions, reversed: bool)
    returns (r: Attempt<RegularExpression>)
    requires AllExact(meaning, g, es)
    requires forall s <- rhs :: SymbolInRange(s, g.nonterminals, |g.terminals|)
    ensures r.Certified? && reversed ==> Reversible(r.value)
    ensures r.Certified? ==> forall w: Word :: Denotes(ReadingFor(meaning, reversed), r.value, w) <==>
                               Derives(CfgFor(meaning, g), rhs, Oriented(reversed, w))
    ensures r.Uncertified? ==> exists s <- rhs :: Turned(reversed, PartFor(g, analysis, c, es, s)) == r
  {
    hide PartsExact, Reversible, ReadingFor, AllExact, PartFor;
    assert |es| == g.nonterminals by { AllExactLength(meaning, g, es); }
    var parts: seq<RegularExpression> := [];
    NoParts(meaning, g, reversed);
    var i := 0;
    assert rhs[|rhs|..] == [] && rhs[..0] == [];
    while i < |rhs|
      invariant 0 <= i <= |rhs|
      invariant PartsExact(meaning, g, if reversed then rhs[|rhs| - i..] else rhs[..i], reversed, parts)
    {
      var s := if reversed then rhs[|rhs| - 1 - i] else rhs[i];
      assert s in rhs;
      var part := Turned(reversed, PartFor(g, analysis, c, es, s));
      if part.Uncertified? {
        return part;
      }
      forall w: Word
        ensures Denotes(ReadingFor(meaning, reversed), part.value, w) <==>
                Derives(CfgFor(meaning, g), [s], Oriented(reversed, w))
      {
        TurnedExact(meaning, g, analysis, c, es, s, reversed, w);
      }
      TurnedExact(meaning, g, analysis, c, es, s, reversed, []);
      PartsMore(meaning, g, if reversed then rhs[|rhs| - i..] else rhs[..i], reversed, parts, s, part.value);
      if reversed {
        assert [s] + rhs[|rhs| - i..] == rhs[|rhs| - (i + 1)..];
      } else {
        assert rhs[..i] + [s] == rhs[..i + 1];
      }
      parts := parts + [part.value];
      i := i + 1;
    }
    assert rhs[..i] == rhs && rhs[|rhs| - i..] == rhs;
    PartsTogether(meaning, g, rhs, reversed, parts);
    r := Certified(ConcatOf(parts));
  }

  lemma AllExactLength(meaning: Meaning, g: Grammar, es: Expressions)
    requires AllExact(meaning, g, es)
    ensures |es| == g.nonterminals
  {
  }

  lemma PartsTogether(meaning: Meaning, g: Grammar, symbols: seq<Symbol>, reversed: bool, parts: seq<RegularExpression>)
    requires PartsExact(meaning, g, symbols, reversed, parts)
    ensures reversed ==> Reversible(ConcatOf(parts))
    ensures forall w: Word :: Denotes(ReadingFor(meaning, reversed), ConcatOf(parts), w) <==>
              Derives(CfgFor(meaning, g), symbols, Oriented(reversed, w))
  {
    hide Derives;
    forall w: Word
      ensures Denotes(ReadingFor(meaning, reversed), ConcatOf(parts), w) <==>
              DenotesAll(ReadingFor(meaning, reversed), parts, w)
    {
      ConcatOfDenotes(ReadingFor(meaning, reversed), parts, w);
    }
    if reversed {
      ConcatOfReversible(parts);
    }
  }
}
