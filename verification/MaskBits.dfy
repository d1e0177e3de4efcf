/**
 Single bits of a 32-bit mask word.
 */
module MaskBits {

  type Bit = b: nat | b < 32

  function Mark(b: Bit): bv32 {
    1 << b
  }

  function Join(word: bv32, other: bv32): bv32 {
    word | other
  }

  function Meet(word: bv32, other: bv32): bv32 {
    word & other
  }

  predicate At(word: bv32, b: Bit) {
    Meet(word, Mark(b)) != 0
  }

  function WithBit(word: bv32, b: Bit): bv32 {
    Join(word, Mark(b))
  }

  lemma MarksApart(b: Bit, k: Bit)
    ensures Meet(Mark(b), Mark(k)) != 0 <==> b == k
  {
  }

  lemma MeetJoin(word: bv32, p: bv32, q: bv32)
    ensures Meet(Join(word, p), q) == Join(Meet(word, q), Meet(p, q))
  {
  }

  lemma JoinZero(x: bv32, y: bv32)
    ensures Join(x, y) == 0 <==> x == 0 && y == 0
  {
  }

  // Setting a bit sets that bit and no other.
  lemma WithBitAt(word: bv32, b: Bit, k: Bit)
    ensures At(WithBit(word, b), k) <==> k == b || At(word, k)
  {
    hide Mark, Join, Meet;
    MarksApart(b, k);
    MeetJoin(word, Mark(b), Mark(k));
    JoinZero(Meet(word, Mark(k)), Meet(Mark(b), Mark(k)));
  }

  lemma ZeroMeet(p: bv32)
    ensures Meet(0, p) == 0
  {
  }

  lemma ZeroAt(b: Bit)
    ensures !At(0, b)
  {
    hide Mark, Meet;
    ZeroMeet(Mark(b));
  }

  // ---------- What the bits mean ----------

  // The bit at two to the power `b`, counted from the lowest: without its lowest `b` bits the word is odd.
  predicate IsOne(word: bv32, b: Bit) {
    (word >> b) & 1 == 1
  }

  // The same with the place as a word.
  predicate ReadsOne(word: bv32, c: bv32)
    requires c < 32
  {
    (word >> c) & 1 == 1
  }

  lemma LowestApart(word: bv32, c: bv32)
    requires c < 32
    ensures ((word >> c) << c) & (1 << c) == word & (1 << c)
  {
  }

  lemma LowestRaised(rest: bv32, c: bv32)
    requires c < 32
    ensures (rest << c) & (1 << c) == (rest & 1) << c
  {
  }

  lemma RaisedZero(rest: bv32, c: bv32)
    requires c < 32
    ensures (rest & 1) << c != 0 <==> rest & 1 == 1
  {
  }

  lemma MeetReads(word: bv32, c: bv32)
    requires c < 32
    ensures Meet(word, 1 << c) != 0 <==> ReadsOne(word, c)
  {
    LowestApart(word, c);
    LowestRaised(word >> c, c);
    RaisedZero(word >> c, c);
  }

  lemma MarkIs(b: Bit)
    ensures b as bv32 < 32 && Mark(b) == 1 << (b as bv32)
  {
  }

  lemma ReadsAt(word: bv32, b: Bit)
    ensures b as bv32 < 32 && (ReadsOne(word, b as bv32) <==> IsOne(word, b))
  {
    assert word >> b == word >> (b as bv32);
  }

  // Bit `b` of a word is its place at two to the power `b`.
  lemma AtReads(word: bv32, b: Bit)
    ensures At(word, b) <==> IsOne(word, b)
  {
    hide Mark, Meet, ReadsOne, IsOne;
    MarkIs(b);
    MeetReads(word, b as bv32);
    ReadsAt(word, b);
  }
}
