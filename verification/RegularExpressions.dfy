/**
 Regular expressions over pattern atoms, the words they denote, and the normalising constructors the grammar
 stage builds them with.  An atom's language is given from outside (`Meaning`); a pattern that stands for
 literal bytes always denotes exactly those bytes.  What an expression denotes depends on how its atoms are read.
 */
module RegularExpressions {
  import opened Grammars

  // A pattern is escaped literal bytes or regular-expression source text.
  datatype Pattern = Escaped(bytes: Word) | Source(text: string)

  type Meaning = string -> iset<Word>

  ghost function PatternLanguage(meaning: Meaning, p: Pattern): iset<Word> {
    match p
    case Escaped(bytes) => iset{bytes}
    case Source(text) => meaning(text)
  }

  // What the atoms of an expression match, given both their patterns.
  type Reading = (Pattern, Option<Pattern>) -> iset<Word>

  // Atoms read as written: by their forward pattern.
  ghost function Forwards(meaning: Meaning): Reading {
    (forward: Pattern, reverse: Option<Pattern>) => PatternLanguage(meaning, forward)
  }

  datatype RegularExpression =
    | Empty
    | Epsilon
    | Atom(forward: Pattern, reverse: Option<Pattern>)
    | Concat(parts: seq<RegularExpression>)
    | Union(branches: seq<RegularExpression>)
    | Star(inner: RegularExpression)

  function Flatten(words: seq<Word>): Word {
    if words == [] then [] else words[0] + Flatten(words[1..])
  }

  // The expression matches the word.
  ghost predicate Denotes(reading: Reading, e: RegularExpression, w: Word)
    decreases e, 0
  {
    match e
    case Empty => false
    case Epsilon => w == []
    case Atom(forward, reverse) => w in reading(forward, reverse)
    case Concat(parts) => DenotesAll(reading, parts, w)
    case Union(branches) => exists b <- branches :: Denotes(reading, b, w)
    case Star(inner) => exists words: seq<Word> :: Flatten(words) == w
                          && forall x <- words :: Denotes(reading, inner, x)
  }

  // The parts match consecutive pieces of the word.
  ghost predicate DenotesAll(reading: Reading, parts: seq<RegularExpression>, w: Word)
    decreases parts, 1
  {
    if parts == [] then w == []
    else exists k: nat :: k <= |w| && Denotes(reading, parts[0], w[..k]) && DenotesAll(reading, parts[1..], w[k..])
  }

  // Repetition of whatever `e` denotes, without looking at the form of `e`.
  ghost predicate DenotesStar(reading: Reading, e: RegularExpression, w: Word) {
    exists words: seq<Word> :: Flatten(words) == w && forall x <- words :: Denotes(reading, e, x)
  }

  // ---------- Concatenation ----------

  lemma {:induction false} DenotesAppend(reading: Reading, u: seq<RegularExpression>, v: seq<RegularExpression>,
      x: Word, y: Word)
    requires DenotesAll(reading, u, x) && DenotesAll(reading, v, y)
    ensures DenotesAll(reading, u + v, x + y)
    decreases |u|
  {
    if u == [] {
      assert u + v == v && x + y == y;
    } else {
      var k: nat :| k <= |x| && Denotes(reading, u[0], x[..k]) && DenotesAll(reading, u[1..], x[k..]);
      DenotesAppend(reading, u[1..], v, x[k..], y);
      assert (u + v)[0] == u[0] && (u + v)[1..] == u[1..] + v;
      assert (x + y)[..k] == x[..k] && (x + y)[k..] == x[k..] + y;
    }
  }

  lemma {:induction false} DenotesSplit(reading: Reading, u: seq<RegularExpression>, v: seq<RegularExpression>,
      w: Word) returns (k: nat)
    requires DenotesAll(reading, u + v, w)
    ensures k <= |w| && DenotesAll(reading, u, w[..k]) && DenotesAll(reading, v, w[k..])
    decreases |u|
  {
    if u == [] {
      k := 0;
      assert u + v == v && w[0..] == w && w[..0] == [];
    } else {
      assert (u + v)[0] == u[0] && (u + v)[1..] == u[1..] + v;
      var j: nat :| j <= |w| && Denotes(reading, u[0], w[..j]) && DenotesAll(reading, u[1..] + v, w[j..]);
      var i := DenotesSplit(reading, u[1..], v, w[j..]);
      k := j + i;
      assert w[..k][..j] == w[..j] && w[..k][j..] == w[j..][..i] && w[k..] == w[j..][i..];
    }
  }

  lemma DenotesOne(reading: Reading, e: RegularExpression, w: Word)
    ensures DenotesAll(reading, [e], w) <==> Denotes(reading, e, w)
  {
    assert [e][1..] == [];
    assert w[..|w|] == w && w[|w|..] == [];
    if DenotesAll(reading, [e], w) {
      var k: nat :| k <= |w| && Denotes(reading, e, w[..k]) && DenotesAll(reading, [], w[k..]);
      assert k == |w|;
    }
  }

  // Splice nested concatenations and drop the empty word; None when a part is empty.
  function FlattenParts(parts: seq<RegularExpression>): Option<seq<RegularExpression>> {
    if parts == [] then Some([])
    else if parts[0] == Empty then None
    else
      match FlattenParts(parts[1..])
      case None => None
      case Some(rest) =>
        Some(Pieces(parts[0]) + rest)
  }

  // What a part contributes to a flat concatenation.
  function Pieces(e: RegularExpression): seq<RegularExpression> {
    if e == Epsilon then [] else if e.Concat? then e.parts else [e]
  }

  function ConcatOf(parts: seq<RegularExpression>): RegularExpression {
    match FlattenParts(parts)
    case None => Empty
    case Some(flat) => if |flat| == 0 then Epsilon else if |flat| == 1 then flat[0] else Concat(flat)
  }

  lemma {:induction false} FlattenPartsDenotes(reading: Reading, parts: seq<RegularExpression>, w: Word)
    ensures match FlattenParts(parts)
            case None => !DenotesAll(reading, parts, w)
            case Some(flat) => DenotesAll(reading, parts, w) <==> DenotesAll(reading, flat, w)
    decreases |parts|
  {
    if parts != [] {
      forall k: nat | k <= |w| ensures
        match FlattenParts(parts[1..])
        case None => !DenotesAll(reading, parts[1..], w[k..])
        case Some(rest) => DenotesAll(reading, parts[1..], w[k..]) <==> DenotesAll(reading, rest, w[k..])
      {
        FlattenPartsDenotes(reading, parts[1..], w[k..]);
      }
      assert [parts[0]] + parts[1..] == parts;
      if parts[0] != Empty && FlattenParts(parts[1..]).Some? {
        SpliceDenotes(reading, parts[0], parts[1..], FlattenParts(parts[1..]).value, w);
      }
    }
  }

  // What one part contributes when it is spliced into the flattened rest.
  lemma SpliceDenotes(reading: Reading, e: RegularExpression, tail: seq<RegularExpression>,
      rest: seq<RegularExpression>, w: Word)
    requires forall k: nat :: k <= |w| ==> (DenotesAll(reading, tail, w[k..]) <==> DenotesAll(reading, rest, w[k..]))
    ensures DenotesAll(reading, [e] + tail, w) <==> DenotesAll(reading, Pieces(e) + rest, w)
  {
    var front := Pieces(e);
    hide Denotes, DenotesAll, Pieces;
    if DenotesAll(reading, [e] + tail, w) {
      var k := SplitFirst(reading, e, tail, w);
      PiecesDenote(reading, e, w[..k]);
      DenotesAppend(reading, front, rest, w[..k], w[k..]);
      assert w[..k] + w[k..] == w;
    }
    if DenotesAll(reading, front + rest, w) {
      var k := DenotesSplit(reading, front, rest, w);
      PiecesDenote(reading, e, w[..k]);
      JoinFirst(reading, e, tail, w, k);
    }
  }

  lemma PiecesDenote(reading: Reading, e: RegularExpression, w: Word)
    ensures Denotes(reading, e, w) <==> DenotesAll(reading, Pieces(e), w)
  {
    DenotesOne(reading, e, w);
  }

  lemma SplitFirst(reading: Reading, e: RegularExpression, tail: seq<RegularExpression>, w: Word) returns (k: nat)
    requires DenotesAll(reading, [e] + tail, w)
    ensures k <= |w| && Denotes(reading, e, w[..k]) && DenotesAll(reading, tail, w[k..])
  {
    var all := [e] + tail;
    assert all[0] == e && all[1..] == tail;
    k :| k <= |w| && Denotes(reading, all[0], w[..k]) && DenotesAll(reading, all[1..], w[k..]);
  }

  lemma JoinFirst(reading: Reading, e: RegularExpression, tail: seq<RegularExpression>, w: Word, k: nat)
    requires k <= |w| && Denotes(reading, e, w[..k]) && DenotesAll(reading, tail, w[k..])
    ensures DenotesAll(reading, [e] + tail, w)
  {
    var all := [e] + tail;
    assert all[0] == e && all[1..] == tail;
  }

  lemma ConcatOfDenotes(reading: Reading, parts: seq<RegularExpression>, w: Word)
    ensures Denotes(reading, ConcatOf(parts), w) <==> DenotesAll(reading, parts, w)
  {
    FlattenPartsDenotes(reading, parts, w);
    match FlattenParts(parts)
    case None =>
    case Some(flat) => if |flat| == 1 { DenotesOne(reading, flat[0], w); assert flat == [flat[0]]; }
  }

  // ---------- Union ----------

  function Rank(e: RegularExpression): nat {
    match e
    case Empty => 0
    case Epsilon => 1
    case Atom(_, _) => 2
    case Concat(_) => 3
    case Union(_) => 4
    case Star(_) => 5
  }

  predicate TextBefore(u: seq<int>, v: seq<int>)
    decreases |u|
  {
    v != [] && (u == [] || u[0] < v[0] || (u[0] == v[0] && TextBefore(u[1..], v[1..])))
  }

  function Codes(p: Pattern): seq<int> {
    match p
    case Escaped(bytes) => [0] + seq(|bytes|, i requires 0 <= i < |bytes| => bytes[i] as int)
    case Source(text) => [1] + seq(|text|, i requires 0 <= i < |text| => text[i] as int)
  }

  // The structural order the branches of a union are sorted by.
  predicate Before(a: RegularExpression, b: RegularExpression)
    decreases a, 0
  {
    if Rank(a) != Rank(b) then Rank(a) < Rank(b)
    else
      match a
      case Atom(f, r) =>
        TextBefore(Codes(f), Codes(b.forward))
        || (f == b.forward
           && (if r.None? then b.reverse.Some?
               else b.reverse.Some? && TextBefore(Codes(r.value), Codes(b.reverse.value))))
      case Concat(parts) => AllBefore(parts, b.parts)
      case Union(branches) => AllBefore(branches, b.branches)
      case Star(inner) => Before(inner, b.inner)
      case _ => false
  }

  predicate AllBefore(u: seq<RegularExpression>, v: seq<RegularExpression>)
    decreases u, 1
  {
    v != [] && (u == [] || Before(u[0], v[0]) || (u[0] == v[0] && AllBefore(u[1..], v[1..])))
  }

  function InsertBranch(e: RegularExpression, branches: seq<RegularExpression>): (r: seq<RegularExpression>)
    ensures forall b :: b in r <==> b == e || b in branches
  {
    if branches == [] then [e]
    else if e == branches[0] then branches
    else if Before(e, branches[0]) then [e] + branches
    else [branches[0]] + InsertBranch(e, branches[1..])
  }

  function SortBranches(branches: seq<RegularExpression>): (r: seq<RegularExpression>)
    ensures forall b :: b in r <==> b in branches
  {
    if branches == [] then [] else InsertBranch(branches[0], SortBranches(branches[1..]))
  }

  // Splice nested unions and drop the empty language.
  function FlattenBranches(branches: seq<RegularExpression>): seq<RegularExpression> {
    if branches == [] then []
    else Alternatives(branches[0]) + FlattenBranches(branches[1..])
  }

  // What a branch contributes to a flat union.
  function Alternatives(e: RegularExpression): seq<RegularExpression> {
    if e == Empty then [] else if e.Union? then e.branches else [e]
  }

  function UnionOf(branches: seq<RegularExpression>): RegularExpression {
    var unique := SortBranches(FlattenBranches(branches));
    if |unique| == 0 then Empty else if |unique| == 1 then unique[0] else Union(unique)
  }

  ghost predicate DenotesAny(reading: Reading, branches: seq<RegularExpression>, w: Word) {
    exists b <- branches :: Denotes(reading, b, w)
  }

  lemma {:induction false} FlattenBranchesDenotes(reading: Reading, branches: seq<RegularExpression>, w: Word)
    ensures DenotesAny(reading, FlattenBranches(branches), w) <==> DenotesAny(reading, branches, w)
    decreases |branches|
  {
    if branches != [] {
      FlattenBranchesDenotes(reading, branches[1..], w);
      var first := Alternatives(branches[0]);
      var flat := FlattenBranches(branches);
      assert flat == first + FlattenBranches(branches[1..]);
      assert forall b :: b in flat <==> b in first || b in FlattenBranches(branches[1..]);
      assert forall b :: b in branches <==> b == branches[0] || b in branches[1..];
      assert DenotesAny(reading, first, w) <==> Denotes(reading, branches[0], w) by {
        if Denotes(reading, branches[0], w) && !branches[0].Union? {
          assert branches[0] in first;
        }
      }
    }
  }

  lemma UnionOfDenotes(reading: Reading, branches: seq<RegularExpression>, w: Word)
    ensures Denotes(reading, UnionOf(branches), w) <==> DenotesAny(reading, branches, w)
  {
    FlattenBranchesDenotes(reading, branches, w);
    var flat := FlattenBranches(branches);
    var unique := SortBranches(flat);
    assert DenotesAny(reading, unique, w) <==> DenotesAny(reading, flat, w);
    if |unique| == 1 {
      assert forall b :: b in unique <==> b == unique[0];
    }
  }

  // ---------- Star ----------

  function StarOf(e: RegularExpression): RegularExpression {
    if e == Empty || e == Epsilon then Epsilon else if e.Star? then e else Star(e)
  }

  lemma {:induction false} FlattenAppend(u: seq<Word>, v: seq<Word>)
    ensures Flatten(u + v) == Flatten(u) + Flatten(v)
    decreases |u|
  {
    if u == [] {
      assert u + v == v;
    } else {
      FlattenAppend(u[1..], v);
      assert (u + v)[0] == u[0] && (u + v)[1..] == u[1..] + v;
    }
  }

  lemma {:induction false} EmptyPieces(words: seq<Word>)
    requires forall x <- words :: x == []
    ensures Flatten(words) == []
    decreases |words|
  {
    if words != [] {
      assert words[0] in words && forall x <- words[1..] :: x in words;
      EmptyPieces(words[1..]);
    }
  }

  // A repetition of repetitions is a repetition.
  lemma {:induction false} StarOfStar(reading: Reading, inner: RegularExpression, words: seq<Word>)
    requires forall x <- words :: DenotesStar(reading, inner, x)
    ensures DenotesStar(reading, inner, Flatten(words))
    decreases |words|
  {
    if words == [] {
      var none: seq<Word> := [];
      assert Flatten(none) == [];
    } else {
      assert words[0] in words && forall x <- words[1..] :: x in words;
      StarOfStar(reading, inner, words[1..]);
      var u: seq<Word> :| Flatten(u) == words[0] && forall x <- u :: Denotes(reading, inner, x);
      var v: seq<Word> :| Flatten(v) == Flatten(words[1..]) && forall x <- v :: Denotes(reading, inner, x);
      FlattenAppend(u, v);
      assert forall x <- u + v :: x in u || x in v;
    }
  }

  lemma HeadIn(words: seq<Word>)
    requires words != []
    ensures words[0] in words
  {
  }

  lemma StarOfDenotes(reading: Reading, e: RegularExpression, w: Word)
    ensures Denotes(reading, StarOf(e), w) <==> DenotesStar(reading, e, w)
  {
    match e
    case Empty =>
      if words: seq<Word> :| Flatten(words) == w && forall x <- words :: Denotes(reading, e, x) {
        if words != [] {
          HeadIn(words);
        }
      }
      var none: seq<Word> := [];
      assert Flatten(none) == [];
    case Epsilon =>
      if words: seq<Word> :| Flatten(words) == w && forall x <- words :: Denotes(reading, e, x) {
        EmptyPieces(words);
      }
      var none: seq<Word> := [];
      assert Flatten(none) == [];
    case Star(inner) =>
      if words: seq<Word> :| Flatten(words) == w && forall x <- words :: Denotes(reading, e, x) {
        StarOfStar(reading, inner, words);
      }
      if Denotes(reading, e, w) {
        var one := [w];
        assert Flatten(one) == w by { assert one[1..] == []; }
      }
    case _ =>
  }

  // ---------- Reversal ----------

  function Rev(w: Word): Word {
    if w == [] then [] else Rev(w[1..]) + [w[0]]
  }

  lemma {:induction false} RevAppend(u: Word, v: Word)
    ensures Rev(u + v) == Rev(v) + Rev(u)
    decreases |u|
  {
    if u == [] {
      assert u + v == v && Rev(v) + [] == Rev(v);
    } else {
      RevAppend(u[1..], v);
      assert (u + v)[0] == u[0] && (u + v)[1..] == u[1..] + v;
    }
  }

  lemma {:induction false} RevRev(w: Word)
    ensures Rev(Rev(w)) == w && |Rev(w)| == |w|
    decreases |w|
  {
    if w != [] {
      RevRev(w[1..]);
      RevAppend(Rev(w[1..]), [w[0]]);
      assert Rev([w[0]]) == [w[0]] by { assert [w[0]][1..] == []; }
      assert [w[0]] + w[1..] == w;
    }
  }

  // The reversal of an expression, if every atom in it has one.
  function Reversed(e: RegularExpression): Option<RegularExpression>
    decreases e, 0
  {
    match e
    case Empty => Some(Empty)
    case Epsilon => Some(Epsilon)
    case Atom(forward, reverse) =>
      if reverse.None? then None else Some(Atom(reverse.value, Some(forward)))
    case Concat(parts) =>
      (match ReversedAll(parts) case None => None case Some(reversed) => Some(ConcatOf(Backwards(reversed))))
    case Union(branches) =>
      (match ReversedAll(branches) case None => None case Some(reversed) => Some(UnionOf(reversed)))
    case Star(inner) =>
      (match Reversed(inner) case None => None case Some(reversed) => Some(StarOf(reversed)))
  }

  function ReversedAll(es: seq<RegularExpression>): (r: Option<seq<RegularExpression>>)
    ensures r.Some? ==> |r.value| == |es|
    decreases es, 1
  {
    if es == [] then Some([])
    else
      match (Reversed(es[0]), ReversedAll(es[1..]))
      case (Some(first), Some(rest)) => Some([first] + rest)
      case _ => None
  }

  function Backwards<T>(s: seq<T>): (r: seq<T>)
    ensures |r| == |s|
  {
    if s == [] then [] else Backwards(s[1..]) + [s[0]]
  }
}
