/**
 Compiled terminals: a literal or a byte DFA, each driven one byte at a time through a cursor.
 */
module Terminals {
  import opened Grammars

  const DEAD := 0xFFFF_FFFF

  type Row = r: seq<nat> | |r| == 256 witness seq(256, _ => 0)

  datatype ByteDfa = ByteDfa(transitions: seq<Row>, accepting: seq<bool>, live: seq<bool>) {

    function NextState(state: nat, byte: Byte): nat {
      if state < |transitions| then transitions[state][byte] else DEAD
    }

    predicate IsDead(state: nat) {
      state == DEAD || state >= |transitions|
    }

    predicate IsAccepting(state: nat) {
      state < |accepting| && accepting[state]
    }

    predicate IsLive(state: nat) {
      state < |live| && live[state]
    }
  }

  datatype CompiledTerminal = Literal(bytes: Word) | Dfa(dfa: ByteDfa)

  datatype Cursor = AtOffset(offset: nat) | AtState(state: nat)

  function Start(t: CompiledTerminal): Cursor {
    match t
    case Literal(_) => AtOffset(0)
    case Dfa(_) => AtState(0)
  }

  function Advance(t: CompiledTerminal, c: Cursor, byte: Byte): Option<Cursor> {
    match (t, c)
    case (Literal(bytes), AtOffset(offset)) =>
      if offset < |bytes| && bytes[offset] == byte then Some(AtOffset(offset + 1)) else None
    case (Dfa(dfa), AtState(state)) =>
      var next := dfa.NextState(state, byte);
      if dfa.IsDead(next) then None else Some(AtState(next))
    case _ => None
  }

  predicate IsAccepting(t: CompiledTerminal, c: Cursor) {
    match (t, c)
    case (Literal(bytes), AtOffset(offset)) => offset == |bytes|
    case (Dfa(dfa), AtState(state)) => dfa.IsAccepting(state)
    case _ => false
  }

  predicate IsLive(t: CompiledTerminal, c: Cursor) {
    match (t, c)
    case (Literal(bytes), AtOffset(offset)) => offset < |bytes|
    case (Dfa(dfa), AtState(state)) => dfa.IsLive(state)
    case _ => false
  }

  // ---------- What a terminal means ----------

  // The cursor after a whole word, if every byte could be taken.
  function Run(t: CompiledTerminal, c: Cursor, w: Word): Option<Cursor>
    decreases |w|
  {
    if w == [] then Some(c)
    else
      match Advance(t, c, w[0])
      case None => None
      case Some(next) => Run(t, next, w[1..])
  }

  predicate AcceptsFrom(t: CompiledTerminal, c: Cursor, w: Word) {
    var end := Run(t, c, w);
    end.Some? && IsAccepting(t, end.value)
  }

  predicate Matches(t: CompiledTerminal, w: Word) {
    AcceptsFrom(t, Start(t), w)
  }

  ghost function Language(t: CompiledTerminal): iset<Word> {
    iset w: Word | Matches(t, w)
  }

  ghost function Languages(ts: seq<CompiledTerminal>): seq<iset<Word>> {
    seq(|ts|, i requires 0 <= i < |ts| => Language(ts[i]))
  }

  // The liveness table says exactly which states can still reach acceptance.
  ghost predicate LivenessExact(d: ByteDfa) {
    forall s: nat :: d.IsLive(s) <==> exists w: Word :: AcceptsFrom(Dfa(d), AtState(s), w)
  }

  // A terminal the grammar stage produces: it never accepts the empty word.
  ghost predicate WellFormedTerminal(t: CompiledTerminal) {
    && !IsAccepting(t, Start(t))
    && (t.Dfa? ==> LivenessExact(t.dfa))
  }

  lemma {:induction false} RunAppend(t: CompiledTerminal, c: Cursor, u: Word, v: Word)
    ensures Run(t, c, u + v) == (match Run(t, c, u) case None => None case Some(m) => Run(t, m, v))
    decreases |u|
  {
    if u == [] {
      assert u + v == v;
    } else {
      assert (u + v)[0] == u[0] && (u + v)[1..] == u[1..] + v;
      match Advance(t, c, u[0])
      case None =>
      case Some(next) => RunAppend(t, next, u[1..], v);
    }
  }

  lemma RunOneMore(t: CompiledTerminal, c: Cursor, u: Word, byte: Byte)
    ensures Run(t, c, u + [byte]) == (match Run(t, c, u) case None => None case Some(m) => Advance(t, m, byte))
  {
    RunAppend(t, c, u, [byte]);
    assert forall m :: Run(t, m, [byte]) == Advance(t, m, byte);
  }

  lemma {:induction false} LiteralRun(bytes: Word, offset: nat, w: Word)
    requires offset <= |bytes|
    ensures AcceptsFrom(Literal(bytes), AtOffset(offset), w) <==> w == bytes[offset..]
    decreases |w|
  {
    if w != [] && offset < |bytes| && bytes[offset] == w[0] {
      LiteralRun(bytes, offset + 1, w[1..]);
      assert bytes[offset..] == [bytes[offset]] + bytes[offset + 1..];
      assert w == [w[0]] + w[1..];
    }
  }

  // A literal terminal denotes exactly its own bytes.
  lemma LiteralLanguage(bytes: Word)
    ensures Language(Literal(bytes)) == iset{bytes}
  {
    forall w: Word
      ensures w in Language(Literal(bytes)) <==> w in iset{bytes}
    {
      LiteralRun(bytes, 0, w);
      assert bytes[0..] == bytes;
    }
  }

  // A live cursor has an accepting continuation, and a cursor with a nonempty one is live.
  lemma LiveMeansExtensible(t: CompiledTerminal, c: Cursor) returns (w: Word)
    requires WellFormedTerminal(t) && IsLive(t, c)
    ensures AcceptsFrom(t, c, w)
  {
    match t
    case Literal(bytes) =>
      w := bytes[c.offset..];
      LiteralRun(bytes, c.offset, w);
    case Dfa(dfa) =>
      w :| AcceptsFrom(Dfa(dfa), AtState(c.state), w);
  }

  lemma ExtensibleMeansLive(t: CompiledTerminal, c: Cursor, w: Word)
    requires WellFormedTerminal(t) && w != [] && AcceptsFrom(t, c, w)
    ensures IsLive(t, c)
  {
    match t
    case Literal(bytes) =>
    case Dfa(dfa) => assert AcceptsFrom(Dfa(dfa), AtState(c.state), w);
  }
}
