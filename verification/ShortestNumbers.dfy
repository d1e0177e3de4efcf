/**
 Which spelling the canonical one is: no number of the same value without an exponent is shorter, nor any with a single
 nonzero digit before the point; and an exponent is written only where it makes the text strictly shorter.
 */
module ShortestNumbers {
  import opened Grammars
  import opened Decimals
  import opened Numbers

  // ---------- The parts of any number ----------

  function Leading(m: JsonNumber): string {
    TrimLeading(m.integer + m.fraction)
  }

  function Significance(m: JsonNumber): string {
    TrimTrailing(Leading(m))
  }

  // The parts without a look at any range.
  function PartsOf(m: JsonNumber): DecimalParts
    requires Valid(m)
  {
    if Leading(m) == "" then ZERO
    else
      DecimalParts(m.negative, Significance(m), ExponentValue(m) - |m.fraction| + (|Leading(m)| - |Significance(m)|))
  }

  lemma PartsOfValue(m: JsonNumber)
    requires Valid(m)
    ensures Trimmed(PartsOf(m)) && PartsValue(PartsOf(m)) == Value(m)
  {
    hide Decimal, DigitsValue, TrimLeading, TrimTrailing, ExponentValue;
    AllDigitsJoin(m.integer, m.fraction);
    ZeroValue();
    EmptyValue();
    TrimmedDecimal(m.negative, m.integer + m.fraction, ExponentValue(m) - |m.fraction|);
    DecimalZero(m.negative, ExponentValue(m) - |m.fraction|);
  }

  // A number of the value has these parts.
  lemma PartsOfSame(m: JsonNumber, p: DecimalParts)
    requires Valid(m) && Trimmed(p) && PartsValue(p) == Value(m)
    ensures PartsOf(m) == p
  {
    hide PartsOf, Value, PartsValue, Trimmed;
    PartsOfValue(m);
    PartsUnique(PartsOf(m), p);
  }

  // How long the spelling is.
  lemma SpelledLength(m: JsonNumber)
    ensures |Spell(m)| == (if m.negative then 1 else 0) + |m.integer|
                          + (if m.fraction == "" then 0 else 1 + |m.fraction|)
                          + (match m.exponent case None => 0 case Some(e) => 1 + |e.sign| + |e.digits|)
  {
  }

  // ---------- Without an exponent ----------

  // The plain text is the shortest spelling without an exponent.
  lemma PlainShortest(m: JsonNumber, p: DecimalParts)
    requires Valid(m) && m.exponent.None? && PartsOf(m) == p && p.digits != "0" && p.digits != ""
    ensures |PlainText(p)| <= |Spell(m)|
  {
    hide TrimLeading, TrimTrailing, Spell;
    SpelledLength(m);
    assert p != ZERO;
    assert |m.integer + m.fraction| == |m.integer| + |m.fraction|;
  }

  // ---------- One digit before the point ----------

  // Digits of the same value are at least as many as are written.
  lemma {:induction false} WrittenShortest(s: string)
    requires AllDigits(s) && s != ""
    ensures |Written(DigitsValue(s))| <= |s|
    decreases |s|
  {
    var n := DigitsValue(s);
    if n >= 10 {
      var front := s[..|s| - 1];
      AllDigitsParts(s, |s| - 1);
      assert IsDigit(s[|s| - 1]);
      assert n / 10 == DigitsValue(front);
      WrittenShortest(front);
    }
  }

  // The exponent, where there is one, takes at least a mark and the integer.
  lemma ExponentShortest(m: JsonNumber)
    requires Valid(m)
    ensures var size := match m.exponent case None => 0 case Some(e) => 1 + |e.sign| + |e.digits|;
            var i := ExponentValue(m);
            (if i == 0 then 0 else 1 + |WrittenInt(i)|) <= size
  {
    if m.exponent.Some? {
      WrittenShortest(m.exponent.value.digits);
    }
  }

  lemma ScientificLength(p: DecimalParts)
    requires p.digits != ""
    ensures var i := ScientificExponent(p);
            |ScientificText(p)| == (if p.negative then 1 else 0) + 1 + (if |p.digits| > 1 then |p.digits| else 0)
                                   + (if i == 0 then 0 else 1 + |WrittenInt(i)|)
  {
    hide WrittenInt;
  }

  // The scientific text is the shortest spelling with one digit before the point.
  lemma ScientificShortest(m: JsonNumber, p: DecimalParts)
    requires Valid(m) && OneDigit(m) && PartsOf(m) == p && p.digits != "0" && p.digits != ""
    ensures |ScientificText(p)| <= |Spell(m)|
  {
    hide TrimTrailing, Spell, WrittenInt, ScientificText, ExponentValue;
    SpelledLength(m);
    ExponentShortest(m);
    ScientificLength(p);
    assert p != ZERO;
    var all := m.integer + m.fraction;
    assert all[0] == m.integer[0];
    assert Leading(m) == all && |all| == 1 + |m.fraction|;
    assert ExponentValue(m) == ScientificExponent(p);
  }

  // ---------- The choice ----------

  lemma NoMark(n: JsonNumber)
    requires Valid(n) && n.exponent.None?
    ensures 'e' !in Spell(n)
  {
    SignedPlain(n);
  }

  // Main result: the canonical text is no longer than any spelling of the value without an exponent or with one nonzero
  // digit before the point, and shorter than every one without an exponent if it has one itself.
  lemma CanonicalShortest(n: JsonNumber, m: JsonNumber)
    requires Valid(n) && Valid(m) && Value(n) == Value(m) && CanonicalNumber(Spell(n)).Some?
    ensures var text := CanonicalNumber(Spell(n)).value;
            && (m.exponent.None? || OneDigit(m) ==> |text| <= |Spell(m)|)
            && (m.exponent.None? && 'e' in text ==> |text| < |Spell(m)|)
  {
    hide ReadParts, Spell, Value, PartsValue, PartsOf, PlainText, ScientificText, Valid, OneDigit;
    ReadsValue(n);
    var p := ReadParts(Spell(n)).value;
    PartsOfSame(m, p);
    SpelledLength(m);
    if p.digits != "0" {
      PlainLengthExact(p);
      if m.exponent.None? {
        PlainShortest(m, p);
      }
      if OneDigit(m) {
        ScientificShortest(m, p);
      }
      PlainHasNoMark(p);
    }
    SomeDigit(m);
  }

  lemma SomeDigit(m: JsonNumber)
    requires Valid(m)
    ensures |m.integer| >= 1
  {
  }

  lemma PlainHasNoMark(p: DecimalParts)
    requires Normal(p) && p.digits != "0" && PlainLength(p).Some?
    ensures 'e' !in PlainText(p)
  {
    PlainSpelled(p);
    NoMark(PlainNumber(p));
  }
}
