/**
 Linear components: every production of a member has at most one symbol of the component, always at the same
 end.  The productions of such a component are the edges of a finite automaton over words, and its walks to
 the final state spell exactly what the members derive.
 */
module LinearComponents {
  import opened Grammars
  import opened RegularExpressions
  import opened Kleene
  import opened SchemaGrammars
  import opened Certification

  datatype Orientation = Neutral | Right | Left

  // The first symbol of the component from position `i` on.
  function RecursiveFrom(analysis: SccAnalysis, c: nat, rhs: seq<Symbol>, i: nat): (r: Option<nat>)
    requires i <= |rhs|
    ensures r.Some? ==> i <= r.value < |rhs| && InComponent(analysis, c, rhs[r.value])
    ensures forall k :: i <= k < |rhs| && InComponent(analysis, c, rhs[k]) ==> r.Some? && r.value <= k
    decreases |rhs| - i
  {
    if i == |rhs| then None
    else if InComponent(analysis, c, rhs[i]) then Some(i)
    else RecursiveFrom(analysis, c, rhs, i + 1)
  }

  function RecursiveAt(analysis: SccAnalysis, c: nat, rhs: seq<Symbol>): Option<nat> {
    RecursiveFrom(analysis, c, rhs, 0)
  }

  // Symbols of the component stand only at the end the orientation names.
  ghost predicate OneEnd(analysis: SccAnalysis, c: nat, rhs: seq<Symbol>, reversed: bool) {
    forall i :: 0 <= i < |rhs| && InComponent(analysis, c, rhs[i]) ==> i == if reversed then 0 else |rhs| - 1
  }

  ghost predicate LinearIn(g: Grammar, analysis: SccAnalysis, c: nat, reversed: bool) {
    forall p: nat :: p < |g.productions| && InComponent(analysis, c, Nonterminal(g.productions[p].lhs)) ==>
      OneEnd(analysis, c, g.productions[p].rhs, reversed)
  }

  function ProductionOrientation(analysis: SccAnalysis, c: nat, rhs: seq<Symbol>): Attempt<Orientation> {
    match RecursiveAt(analysis, c, rhs)
    case None => Certified(Neutral)
    case Some(position) =>
      if RecursiveFrom(analysis, c, rhs, position + 1).Some? then Uncertified(MultipleRecursiveOccurrences)
      else if |rhs| == 1 then Certified(Neutral)
      else if position == 0 then Certified(Left)
      else if position + 1 == |rhs| then Certified(Right)
      else Uncertified(RecursiveSymbolInInterior)
  }

  lemma ProductionOriented(analysis: SccAnalysis, c: nat, rhs: seq<Symbol>)
    ensures match ProductionOrientation(analysis, c, rhs)
            case Uncertified(_) => !OneEnd(analysis, c, rhs, false) && !OneEnd(analysis, c, rhs, true)
            case Certified(Neutral) => OneEnd(analysis, c, rhs, false) && OneEnd(analysis, c, rhs, true)
            case Certified(Right) => OneEnd(analysis, c, rhs, false) && !OneEnd(analysis, c, rhs, true)
            case Certified(Left) => !OneEnd(analysis, c, rhs, false) && OneEnd(analysis, c, rhs, true)
  {
    var first := RecursiveAt(analysis, c, rhs);
    if first.Some? {
      var next := RecursiveFrom(analysis, c, rhs, first.value + 1);
      assert InComponent(analysis, c, rhs[first.value]);
      if next.Some? {
        assert InComponent(analysis, c, rhs[next.value]) && next.value > first.value;
      }
    }
  }

  // The productions of the first `upto` that belong to the component lean this way.
  ghost predicate LeansUpto(g: Grammar, analysis: SccAnalysis, c: nat, lean: Orientation, upto: nat)
    requires upto <= |g.productions|
  {
    && (lean != Left ==> LinearUpto(g, analysis, c, false, upto))
    && (lean != Right ==> LinearUpto(g, analysis, c, true, upto))
    && (lean == Right ==> !LinearUpto(g, analysis, c, true, upto))
    && (lean == Left ==> !LinearUpto(g, analysis, c, false, upto))
  }

  ghost predicate LinearUpto(g: Grammar, analysis: SccAnalysis, c: nat, reversed: bool, upto: nat)
    requires upto <= |g.productions|
  {
    forall p: nat :: p < upto && InComponent(analysis, c, Nonterminal(g.productions[p].lhs)) ==>
      OneEnd(analysis, c, g.productions[p].rhs, reversed)
  }

  // A component is oriented exactly when it is linear towards one end.
  method ComponentOrientation(g: Grammar, analysis: SccAnalysis, c: nat) returns (r: Attempt<Orientation>)
    ensures r.Certified? ==> r.value != Neutral && LinearIn(g, analysis, c, r.value == Left)
    ensures r.Certified? && r.value == Left ==> !LinearIn(g, analysis, c, false)
    ensures r.Uncertified? ==> !LinearIn(g, analysis, c, false) && !LinearIn(g, analysis, c, true)
  {
    hide OneEnd, InComponent, ProductionOrientation;
    var lean := Neutral;
    for p := 0 to |g.productions|
      invariant LeansUpto(g, analysis, c, lean, p)
    {
      if InComponent(analysis, c, Nonterminal(g.productions[p].lhs)) {
        ProductionOriented(analysis, c, g.productions[p].rhs);
        match ProductionOrientation(analysis, c, g.productions[p].rhs)
        case Uncertified(reason) => return Uncertified(reason);
        case Certified(Neutral) =>
        case Certified(way) =>
          if lean != Neutral && lean != way {
            return Uncertified(MixedLinearOrientation);
          }
          lean := way;
      }
    }
    r := Certified(if lean == Neutral then Right else lean);
  }

  // ---------- Productions as edges ----------

  function EdgeTarget(analysis: SccAnalysis, c: nat, rhs: seq<Symbol>): Option<nat> {
    match RecursiveAt(analysis, c, rhs)
    case None => None
    case Some(i) => Some(rhs[i].id)
  }

  function EdgeAtoms(analysis: SccAnalysis, c: nat, rhs: seq<Symbol>, reversed: bool): seq<Symbol> {
    match RecursiveAt(analysis, c, rhs)
    case None => rhs
    case Some(i) => if reversed then rhs[i + 1..] else rhs[..i]
  }

  // One of the first `upto` productions of `a` reads `w` and goes on to the target, or ends.
  ghost predicate EdgeWord(cfg: Cfg, analysis: SccAnalysis, c: nat, reversed: bool, upto: nat, a: nat,
      target: Option<nat>, w: Word)
  {
    exists p: nat :: p < upto && EdgeWordVia(cfg, analysis, c, reversed, p, a, target, w)
  }

  ghost predicate EdgeWordVia(cfg: Cfg, analysis: SccAnalysis, c: nat, reversed: bool, p: nat, a: nat,
      target: Option<nat>, w: Word)
  {
    && p < |cfg.productions| && cfg.productions[p].lhs == a && EdgeTarget(analysis, c, cfg.productions[p].rhs) == target
    && Derives(cfg, EdgeAtoms(analysis, c, cfg.productions[p].rhs, reversed), Oriented(reversed, w))
  }

  // Column `t` of a row stands for member `t`, the last column for the end.
  function TargetOf(members: seq<nat>, t: nat): Option<nat> {
    if t < |members| then Some(members[t]) else None
  }

  // The entries of row `s` are the edges of its member.
  ghost predicate RowFor(meaning: Meaning, g: Grammar, analysis: SccAnalysis, c: nat, reversed: bool,
      members: seq<nat>, s: nat, row: seq<RegularExpression>, upto: nat)
    requires s < |members|
  {
    |row| == |members| + 1
      && forall t: nat :: t <= |members| ==> EntryFor(meaning, g, analysis, c, reversed, members, s, t, row[t], upto)
  }

  ghost predicate EntryFor(meaning: Meaning, g: Grammar, analysis: SccAnalysis, c: nat, reversed: bool,
      members: seq<nat>, s: nat, t: nat, e: RegularExpression, upto: nat)
    requires s < |members|
  {
    forall w: Word :: Denotes(ReadingFor(meaning, reversed), e, w) <==>
      EdgeWord(CfgFor(meaning, g), analysis, c, reversed, upto, members[s], TargetOf(members, t), w)
  }

  ghost predicate EdgesFor(meaning: Meaning, g: Grammar, analysis: SccAnalysis, c: nat, reversed: bool,
      members: seq<nat>, m: Matrix)
  {
    Square(m, |members| + 1)
      && forall s: nat :: s < |members| ==> RowFor(meaning, g, analysis, c, reversed, members, s, m[s], |g.productions|)
  }

  // ---------- Walks are derivations ----------

  lemma OrientedJoin(reversed: bool, u: Word, v: Word)
    ensures Oriented(reversed, u + v) ==
            if reversed then Oriented(reversed, v) + Oriented(reversed, u)
            else Oriented(reversed, u) + Oriented(reversed, v)
    ensures Oriented(reversed, Oriented(reversed, u)) == u
  {
    RevAppend(u, v);
    RevRev(u);
  }

  // The right-hand side is its atoms and its recursive symbol, in the order the orientation says.
  lemma RhsParts(analysis: SccAnalysis, c: nat, rhs: seq<Symbol>, reversed: bool)
    requires OneEnd(analysis, c, rhs, reversed) && EdgeTarget(analysis, c, rhs).Some?
    ensures var n, atoms := Nonterminal(EdgeTarget(analysis, c, rhs).value), EdgeAtoms(analysis, c, rhs, reversed);
            rhs == (if reversed then [n] + atoms else atoms + [n]) && InComponent(analysis, c, n)
  {
    var i := RecursiveAt(analysis, c, rhs).value;
    assert rhs[i] == Nonterminal(rhs[i].id);
  }

  lemma EdgeDerives(cfg: Cfg, analysis: SccAnalysis, c: nat, reversed: bool, p: nat, u: Word, v: Word)
    requires p < |cfg.productions| && OneEnd(analysis, c, cfg.productions[p].rhs, reversed)
    requires EdgeTarget(analysis, c, cfg.productions[p].rhs).Some?
    requires Derives(cfg, EdgeAtoms(analysis, c, cfg.productions[p].rhs, reversed), Oriented(reversed, u))
    requires Generates(cfg, EdgeTarget(analysis, c, cfg.productions[p].rhs).value, Oriented(reversed, v))
    ensures Generates(cfg, cfg.productions[p].lhs, Oriented(reversed, u + v))
  {
    hide EdgeTarget, EdgeAtoms, OneEnd, Derives, Generates, Oriented;
    var rhs := cfg.productions[p].rhs;
    var n, atoms := EdgeTarget(analysis, c, rhs).value, EdgeAtoms(analysis, c, rhs, reversed);
    RhsParts(analysis, c, rhs, reversed);
    OrientedJoin(reversed, u, v);
    DerivesNonterminal(cfg, n, Oriented(reversed, v));
    if reversed {
      DerivesConcat(cfg, [Nonterminal(n)], Oriented(reversed, v), atoms, Oriented(reversed, u));
    } else {
      DerivesConcat(cfg, atoms, Oriented(reversed, u), [Nonterminal(n)], Oriented(reversed, v));
    }
    DerivesProduction(cfg, p, Oriented(reversed, u + v));
  }

  // A walk to the end spells a word of the member it starts from.
  lemma {:induction false} WalkGenerates(meaning: Meaning, g: Grammar, analysis: SccAnalysis, c: nat, reversed: bool,
      members: seq<nat>, m: Matrix, s: nat, steps: seq<Step>)
    requires EdgesFor(meaning, g, analysis, c, reversed, members, m) && LinearIn(g, analysis, c, reversed)
    requires s < |members|
    requires forall a <- members :: InComponent(analysis, c, Nonterminal(a))
    requires WalkFor(ReadingFor(meaning, reversed), m, |members|, s, steps, |members|)
    ensures Generates(CfgFor(meaning, g), members[s], Oriented(reversed, WalkWord(steps)))
    decreases |steps|
  {
    hide ReadingFor, Denotes, Derives, Generates, Oriented, InComponent, EdgeTarget, EdgeAtoms, OneEnd;
    var cfg := CfgFor(meaning, g);
    var t, u := steps[0].target, steps[0].word;
    assert RowFor(meaning, g, analysis, c, reversed, members, s, m[s], |g.productions|);
    assert EntryFor(meaning, g, analysis, c, reversed, members, s, t, m[s][t], |g.productions|);
    var p: nat :| p < |g.productions|
      && EdgeWordVia(cfg, analysis, c, reversed, p, members[s], TargetOf(members, t), u);
    assert members[s] in members;
    assert OneEnd(analysis, c, g.productions[p].rhs, reversed);
    if |steps| == 1 {
      assert steps[1..] == [] && u + [] == u;
      EndDerives(cfg, analysis, c, reversed, p, u);
    } else {
      WalkGenerates(meaning, g, analysis, c, reversed, members, m, t, steps[1..]);
      EdgeDerives(cfg, analysis, c, reversed, p, u, WalkWord(steps[1..]));
    }
  }

  lemma EndDerives(cfg: Cfg, analysis: SccAnalysis, c: nat, reversed: bool, p: nat, u: Word)
    requires p < |cfg.productions| && EdgeTarget(analysis, c, cfg.productions[p].rhs).None?
    requires Derives(cfg, EdgeAtoms(analysis, c, cfg.productions[p].rhs, reversed), Oriented(reversed, u))
    ensures Generates(cfg, cfg.productions[p].lhs, Oriented(reversed, u))
  {
    DerivesProduction(cfg, p, Oriented(reversed, u));
  }

  // The tree of a recursive production: a forest for the atoms and a smaller tree for the recursive symbol.
  lemma SplitTree(cfg: Cfg, analysis: SccAnalysis, c: nat, reversed: bool, p: nat, kids: Forest)
      returns (t: Tree, u: Word)
    requires p < |cfg.productions| && OneEnd(analysis, c, cfg.productions[p].rhs, reversed)
    requires EdgeTarget(analysis, c, cfg.productions[p].rhs).Some? && ForestFor(cfg, kids, cfg.productions[p].rhs)
    ensures TreeFor(cfg, t, Nonterminal(EdgeTarget(analysis, c, cfg.productions[p].rhs).value)) && t < kids
    ensures Derives(cfg, EdgeAtoms(analysis, c, cfg.productions[p].rhs, reversed), Oriented(reversed, u))
    ensures Oriented(reversed, ForestYield(kids)) == u + Oriented(reversed, Yield(t))
  {
    hide EdgeTarget, EdgeAtoms, OneEnd, Oriented;
    var rhs := cfg.productions[p].rhs;
    var n, atoms := Nonterminal(EdgeTarget(analysis, c, rhs).value), EdgeAtoms(analysis, c, rhs, reversed);
    RhsParts(analysis, c, rhs, reversed);
    var k := if reversed then 1 else |atoms|;
    var l, r := SplitForest(cfg, kids, rhs, k);
    assert rhs[..k] == (if reversed then [n] else atoms) && rhs[k..] == if reversed then atoms else [n];
    SingleForest(cfg, if reversed then l else r, n);
    t := (if reversed then l else r).head;
    u := Oriented(reversed, ForestYield(if reversed then r else l));
    OrientedJoin(reversed, ForestYield(l), ForestYield(r));
    OrientedJoin(reversed, ForestYield(if reversed then r else l), []);
    PieceSmaller(l, r, if reversed then l else r);
  }

  lemma {:induction false} AppendSmaller(l: Forest, r: Forest)
    ensures r == Append(l, r) || r < Append(l, r)
    decreases l
  {
    if l.Cons? {
      AppendSmaller(l.tail, r);
    }
  }

  // A one-tree piece at either end of a forest holds a tree smaller than the forest.
  lemma PieceSmaller(l: Forest, r: Forest, piece: Forest)
    requires piece.Cons? && piece.tail == Nil && (piece == l || piece == r)
    ensures piece.head < Append(l, r)
  {
    AppendSmaller(l, r);
  }

  // A derivation of a member is a walk to the end.
  lemma {:induction false} TreeWalks(meaning: Meaning, g: Grammar, analysis: SccAnalysis, c: nat, reversed: bool,
      members: seq<nat>, m: Matrix, s: nat, t: Tree)
    requires EdgesFor(meaning, g, analysis, c, reversed, members, m) && LinearIn(g, analysis, c, reversed)
    requires s < |members|
    requires forall a: nat :: a in members <==> InComponent(analysis, c, Nonterminal(a))
    requires TreeFor(CfgFor(meaning, g), t, Nonterminal(members[s]))
    ensures Walks(ReadingFor(meaning, reversed), m, |members|, s, |members|, Oriented(reversed, Yield(t)))
    decreases t
  {
    hide ReadingFor, Denotes, Derives, Oriented, InComponent, EdgeTarget, EdgeAtoms, OneEnd, Walks, RowFor;
    var cfg := CfgFor(meaning, g);
    var p, kids := t.production, t.kids;
    assert members[s] in members;
    assert OneEnd(analysis, c, g.productions[p].rhs, reversed);
    match EdgeTarget(analysis, c, cfg.productions[p].rhs)
    case None =>
      NoTargetAtoms(cfg, analysis, c, reversed, p, kids);
      EdgeStep(meaning, g, analysis, c, reversed, members, m, s, |members|, p, Oriented(reversed, Yield(t)));
    case Some(n) =>
      RhsParts(analysis, c, cfg.productions[p].rhs, reversed);
      var t', u := SplitTree(cfg, analysis, c, reversed, p, kids);
      var q: nat :| q < |members| && members[q] == n;
      TreeWalks(meaning, g, analysis, c, reversed, members, m, q, t');
      EdgeStep(meaning, g, analysis, c, reversed, members, m, s, q, p, u);
      WalksJoin(ReadingFor(meaning, reversed), m, |members|, s, q, |members|, u, Oriented(reversed, Yield(t')));
  }

  lemma NoTargetAtoms(cfg: Cfg, analysis: SccAnalysis, c: nat, reversed: bool, p: nat, kids: Forest)
    requires p < |cfg.productions| && EdgeTarget(analysis, c, cfg.productions[p].rhs).None?
    requires ForestFor(cfg, kids, cfg.productions[p].rhs)
    ensures Derives(cfg, EdgeAtoms(analysis, c, cfg.productions[p].rhs, reversed),
            Oriented(reversed, Oriented(reversed, ForestYield(kids))))
  {
    OrientedJoin(reversed, ForestYield(kids), []);
  }

  lemma EdgeStep(meaning: Meaning, g: Grammar, analysis: SccAnalysis, c: nat, reversed: bool, members: seq<nat>,
      m: Matrix, s: nat, t: nat, p: nat, u: Word)
    requires EdgesFor(meaning, g, analysis, c, reversed, members, m) && s < |members| && t <= |members|
    requires p < |g.productions|
    requires EdgeWordVia(CfgFor(meaning, g), analysis, c, reversed, p, members[s], TargetOf(members, t), u)
    ensures Walks(ReadingFor(meaning, reversed), m, |members|, s, t, u)
  {
    hide ReadingFor, Denotes, EdgeWordVia, TargetOf;
    assert RowFor(meaning, g, analysis, c, reversed, members, s, m[s], |g.productions|);
    assert EntryFor(meaning, g, analysis, c, reversed, members, s, t, m[s][t], |g.productions|);
    OneStep(ReadingFor(meaning, reversed), m, |members|, s, t, u);
  }

  // The walks of a linear component spell, oriented, exactly what its members derive.
  lemma LinearSolved(meaning: Meaning, g: Grammar, analysis: SccAnalysis, c: nat, reversed: bool, members: seq<nat>,
      m: Matrix, s: nat, w: Word)
    requires EdgesFor(meaning, g, analysis, c, reversed, members, m) && LinearIn(g, analysis, c, reversed)
    requires s < |members|
    requires forall a: nat :: a in members <==> InComponent(analysis, c, Nonterminal(a))
    ensures Walks(ReadingFor(meaning, reversed), m, |members|, s, |members|, w) <==>
            Generates(CfgFor(meaning, g), members[s], Oriented(reversed, w))
  {
    hide ReadingFor, InComponent, LinearIn, WalkFor, EdgesFor;
    EdgesSquare(meaning, g, analysis, c, reversed, members, m);
    var cfg := CfgFor(meaning, g);
    if Walks(ReadingFor(meaning, reversed), m, |members|, s, |members|, w) {
      var steps: seq<Step> :| WalkFor(ReadingFor(meaning, reversed), m, |members|, s, steps, |members|)
        && WalkWord(steps) == w;
      WalkGenerates(meaning, g, analysis, c, reversed, members, m, s, steps);
    }
    if Generates(cfg, members[s], Oriented(reversed, w)) {
      var t: Tree :| TreeFor(cfg, t, Nonterminal(members[s])) && Yield(t) == Oriented(reversed, w);
      TreeWalks(meaning, g, analysis, c, reversed, members, m, s, t);
      OrientedJoin(reversed, w, []);
    }
  }

  lemma EdgesSquare(meaning: Meaning, g: Grammar, analysis: SccAnalysis, c: nat, reversed: bool, members: seq<nat>,
      m: Matrix)
    requires EdgesFor(meaning, g, analysis, c, reversed, members, m)
    ensures Square(m, |members| + 1)
  {
  }
}
