/**
 What the patterns of the scalar types match, read as regular expressions: the integer and the number pattern match JSON
 numbers and nothing else, the number pattern all those that write the sign of their exponent.
 */
module NumberPatterns {
  import opened Grammars
  import opened RegularExpressions
  import opened JsonSchemas
  import opened Decimals
  import opened Numbers

  // ---------- Patterns ----------

  // Ranges stand in brackets; a range of one character is written as that character.
  datatype Pattern =
    | Character(c: char)
    | Class(ranges: seq<(char, char)>)
    | Both(left: Pattern, right: Pattern)
    | Either(left: Pattern, right: Pattern)
    | Maybe(inner: Pattern)
    | Many(inner: Pattern)
    | Some1(inner: Pattern)
    | Group(inner: Pattern)

  function RangesText(ranges: seq<(char, char)>): string {
    if ranges == [] then ""
    else
      (if ranges[0].0 == ranges[0].1 then [ranges[0].0] else [ranges[0].0] + "-" + [ranges[0].1])
        + RangesText(ranges[1..])
  }

  // The pattern as it is written; a point stands for itself only behind a backslash.
  function Text(p: Pattern): string {
    match p
    case Character(c) => if c == '.' then "\\." else [c]
    case Class(ranges) => "[" + RangesText(ranges) + "]"
    case Both(l, r) => Text(l) + Text(r)
    case Either(l, r) => Text(l) + "|" + Text(r)
    case Maybe(q) => Text(q) + "?"
    case Many(q) => Text(q) + "*"
    case Some1(q) => Text(q) + "+"
    case Group(q) => "(" + Text(q) + ")"
  }

  predicate InRanges(ranges: seq<(char, char)>, c: char) {
    exists i :: 0 <= i < |ranges| && ranges[i].0 <= c <= ranges[i].1
  }

  // The strings a pattern matches.
  ghost predicate Reads(p: Pattern, s: string)
    decreases p, |s|
  {
    match p
    case Character(c) => s == [c]
    case Class(ranges) => |s| == 1 && InRanges(ranges, s[0])
    case Both(l, r) => exists k: nat :: k <= |s| && Reads(l, s[..k]) && Reads(r, s[k..])
    case Either(l, r) => Reads(l, s) || Reads(r, s)
    case Maybe(q) => s == "" || Reads(q, s)
    case Many(q) => s == "" || exists k: nat :: 0 < k <= |s| && Reads(q, s[..k]) && Reads(p, s[k..])
    case Some1(q) => exists k: nat :: 0 < k <= |s| && Reads(q, s[..k]) && (k == |s| || Reads(p, s[k..]))
    case Group(q) => Reads(q, s)
  }

  // ---------- The patterns of the scalar types ----------

  const DIGIT := Class([('0', '9')])
  const WHOLE := Group(Either(Character('0'), Both(Class([('1', '9')]), Many(DIGIT))))
  const SIGNED_WHOLE := Both(Maybe(Group(Character('-'))), WHOLE)
  const FRACTION := Maybe(Group(Both(Character('.'), Some1(DIGIT))))
  const MARK := Class([('e', 'e'), ('E', 'E')])
  const SIGN := Class([('+', '+'), ('-', '-')])
  const EXPONENT := Maybe(Group(Both(MARK, Both(SIGN, Some1(DIGIT)))))
  const DECIMAL := Both(Group(SIGNED_WHOLE), Both(FRACTION, EXPONENT))

  lemma DigitText()
    ensures Text(DIGIT) == "[0-9]"
  {
    RangeText('0', '9');
    assert "[" + "0-9" + "]" == "[0-9]";
  }

  lemma RangeText(a: char, b: char)
    ensures RangesText([(a, b)]) == if a == b then [a] else [a] + "-" + [b]
  {
    assert [(a, b)][1..] == [] && RangesText([]) == "";
  }

  lemma PairText(a: char, b: char)
    ensures RangesText([(a, a), (b, b)]) == [a] + [b]
  {
    RangeText(b, b);
    assert [(a, a), (b, b)][1..] == [(b, b)];
  }

  lemma WholeText()
    ensures Text(WHOLE) == "(0|[1-9][0-9]*)"
  {
    hide RangesText;
    DigitText();
    RangeText('1', '9');
    assert Text(Class([('1', '9')])) == "[1-9]";
    assert Text(Many(DIGIT)) == "[0-9]*";
  }

  lemma IntegerText()
    ensures Text(SIGNED_WHOLE) == INTEGER
  {
    hide RangesText;
    WholeText();
    assert Text(Maybe(Group(Character('-')))) == "(-)?";
  }

  lemma FractionWritten()
    ensures Text(FRACTION) == "(\\.[0-9]+)?"
  {
    hide RangesText;
    DigitText();
    assert Text(Some1(DIGIT)) == "[0-9]+";
  }

  lemma ExponentWritten()
    ensures Text(EXPONENT) == "([eE][+-][0-9]+)?"
  {
    hide RangesText;
    DigitText();
    PairText('e', 'E');
    PairText('+', '-');
    assert Text(MARK) == "[eE]" && Text(SIGN) == "[+-]";
    assert Text(Some1(DIGIT)) == "[0-9]+";
  }

  lemma NumberText()
    ensures Text(DECIMAL) == NUMBER
  {
    hide RangesText;
    IntegerText();
    FractionWritten();
    ExponentWritten();
    assert Text(Group(SIGNED_WHOLE)) == "(" + Text(SIGNED_WHOLE) + ")";
    assert Text(Both(FRACTION, EXPONENT)) == Text(FRACTION) + Text(EXPONENT);
  }

  // ---------- What they match ----------

  lemma DigitReads(s: string)
    ensures Reads(DIGIT, s) <==> |s| == 1 && IsDigit(s[0])
  {
    ClassReads('0', '9', s);
  }

  lemma ClassReads(a: char, b: char, s: string)
    ensures Reads(Class([(a, b)]), s) <==> |s| == 1 && a <= s[0] <= b
  {
    var ranges := [(a, b)];
    if |s| == 1 {
      assert ranges[0].0 <= s[0] <= ranges[0].1 <==> a <= s[0] <= b;
    }
  }

  lemma PairReads(a: char, b: char, s: string)
    ensures Reads(Class([(a, a), (b, b)]), s) <==> s == [a] || s == [b]
  {
    var ranges := [(a, a), (b, b)];
    if |s| == 1 {
      assert ranges[0].0 <= s[0] <= ranges[0].1 <==> s[0] == a;
      assert ranges[1].0 <= s[0] <= ranges[1].1 <==> s[0] == b;
    }
  }

  lemma {:induction false} ManyReads(s: string)
    ensures Reads(Many(DIGIT), s) <==> AllDigits(s)
    decreases |s|
  {
    if s != "" {
      DigitReads(s[..1]);
      ManyReads(s[1..]);
      assert s == [s[0]] + s[1..];
      forall k: nat | 0 < k <= |s| && Reads(DIGIT, s[..k]) ensures k == 1 {
        DigitReads(s[..k]);
      }
    }
  }

  lemma {:induction false} SomeReads(s: string)
    ensures Reads(Some1(DIGIT), s) <==> s != "" && AllDigits(s)
    decreases |s|
  {
    if s != "" {
      DigitReads(s[..1]);
      SomeReads(s[1..]);
      assert s == [s[0]] + s[1..];
      forall k: nat | 0 < k <= |s| && Reads(DIGIT, s[..k]) ensures k == 1 {
        DigitReads(s[..k]);
      }
    }
  }

  // The whole part of a number.
  predicate IsWhole(s: string) {
    s != "" && AllDigits(s) && (s[0] == '0' ==> s == "0")
  }

  lemma WholeReads(s: string)
    ensures Reads(WHOLE, s) <==> IsWhole(s)
  {
    var nonzero := Class([('1', '9')]);
    hide Reads;
    WholeParts(s);
    BothReads(nonzero, Many(DIGIT), s);
    forall k: nat | k <= |s| && Reads(nonzero, s[..k]) ensures k == 1 {
      ClassReads('1', '9', s[..k]);
    }
    if s != "" {
      ClassReads('1', '9', s[..1]);
      ManyReads(s[1..]);
      assert s == [s[0]] + s[1..];
      assert AllDigits(s) <==> IsDigit(s[0]) && AllDigits(s[1..]);
    }
  }

  lemma BothReads(l: Pattern, r: Pattern, s: string)
    ensures Reads(Both(l, r), s) <==> exists k: nat :: k <= |s| && Reads(l, s[..k]) && Reads(r, s[k..])
  {
  }

  lemma WholeParts(s: string)
    ensures Reads(WHOLE, s) <==> s == "0" || Reads(Both(Class([('1', '9')]), Many(DIGIT)), s)
  {
    var either := Either(Character('0'), Both(Class([('1', '9')]), Many(DIGIT)));
    assert Reads(WHOLE, s) <==> Reads(either, s);
    assert Reads(Character('0'), s) <==> s == "0";
  }

  // ---------- Integers ----------

  function Minus(negative: bool): string {
    if negative then "-" else ""
  }

  lemma SignReads(s: string)
    ensures Reads(Maybe(Group(Character('-'))), s) <==> s == "" || s == "-"
  {
    assert Reads(Group(Character('-')), s) <==> Reads(Character('-'), s);
  }

  predicate IsSignedWhole(s: string, negative: bool, digits: string) {
    IsWhole(digits) && s == Minus(negative) + digits
  }

  lemma IntegerReads(s: string)
    ensures Reads(SIGNED_WHOLE, s) <==> exists negative, digits :: IsSignedWhole(s, negative, digits)
  {
    hide Reads, IsWhole;
    BothReads(Maybe(Group(Character('-'))), WHOLE, s);
    if k: nat :| k <= |s| && Reads(Maybe(Group(Character('-'))), s[..k]) && Reads(WHOLE, s[k..]) {
      SignReads(s[..k]);
      WholeReads(s[k..]);
      assert s == s[..k] + s[k..];
      assert IsSignedWhole(s, s[..k] == "-", s[k..]);
    }
    if negative, digits :| IsSignedWhole(s, negative, digits) {
      var k := |Minus(negative)|;
      assert s[..k] == Minus(negative) && s[k..] == digits;
      SignReads(s[..k]);
      WholeReads(s[k..]);
    }
  }

  // ---------- Fractions and exponents ----------

  predicate IsFraction(s: string) {
    s == "" || (s[0] == '.' && |s| > 1 && AllDigits(s[1..]))
  }

  lemma FractionReads(s: string)
    ensures Reads(FRACTION, s) <==> IsFraction(s)
  {
    var both := Both(Character('.'), Some1(DIGIT));
    assert Reads(FRACTION, s) <==> s == "" || Reads(both, s) by { MaybeGroup(both, s); }
    PointFirst(s);
  }

  lemma MaybeGroup(p: Pattern, s: string)
    ensures Reads(Maybe(Group(p)), s) <==> s == "" || Reads(p, s)
  {
    assert Reads(Group(p), s) <==> Reads(p, s);
  }

  lemma PointFirst(s: string)
    ensures Reads(Both(Character('.'), Some1(DIGIT)), s) <==> s != "" && s[0] == '.' && |s| > 1 && AllDigits(s[1..])
  {
    BothReads(Character('.'), Some1(DIGIT), s);
    forall k: nat | k <= |s| ensures Reads(Character('.'), s[..k]) <==> k == 1 && s[0] == '.' {
    }
    hide Reads;
    if s != "" {
      SomeReads(s[1..]);
    }
  }

  predicate IsExponent(s: string) {
    s == "" || (|s| > 2 && (s[0] == 'e' || s[0] == 'E') && (s[1] == '+' || s[1] == '-') && AllDigits(s[2..]))
  }

  lemma ExponentReads(s: string)
    ensures Reads(EXPONENT, s) <==> IsExponent(s)
  {
    hide Reads;
    var rest := Both(SIGN, Some1(DIGIT));
    MaybeGroup(Both(MARK, rest), s);
    BothReads(MARK, rest, s);
    forall k: nat | k <= |s| ensures Reads(MARK, s[..k]) <==> k == 1 && (s[0] == 'e' || s[0] == 'E') {
      PairReads('e', 'E', s[..k]);
    }
    if s != "" {
      SignedDigits(s[1..]);
      assert |s| > 1 ==> s[1..][1..] == s[2..];
    }
  }

  lemma SignedDigits(s: string)
    ensures Reads(Both(SIGN, Some1(DIGIT)), s) <==> |s| > 1 && (s[0] == '+' || s[0] == '-') && AllDigits(s[1..])
  {
    hide Reads;
    BothReads(SIGN, Some1(DIGIT), s);
    forall k: nat | k <= |s| ensures Reads(SIGN, s[..k]) <==> k == 1 && (s[0] == '+' || s[0] == '-') {
      PairReads('+', '-', s[..k]);
    }
    if s != "" {
      SomeReads(s[1..]);
    }
  }

  // ---------- Numbers ----------

  predicate IsDecimal(s: string, negative: bool, whole: string, fraction: string, exponent: string) {
    && IsWhole(whole) && IsFraction(fraction) && IsExponent(exponent)
    && s == Minus(negative) + whole + fraction + exponent
  }

  lemma TailReads(s: string)
    ensures Reads(Both(FRACTION, EXPONENT), s) <==>
              exists m: nat :: m <= |s| && IsFraction(s[..m]) && IsExponent(s[m..])
  {
    hide Reads, IsFraction, IsExponent;
    BothReads(FRACTION, EXPONENT, s);
    forall m: nat | m <= |s|
      ensures Reads(FRACTION, s[..m]) <==> IsFraction(s[..m])
      ensures Reads(EXPONENT, s[m..]) <==> IsExponent(s[m..])
    {
      FractionReads(s[..m]);
      ExponentReads(s[m..]);
    }
  }

  lemma DecimalReads(s: string)
    ensures Reads(DECIMAL, s) <==>
              exists negative, whole, fraction, exponent :: IsDecimal(s, negative, whole, fraction, exponent)
  {
    hide Reads, IsDecimal;
    BothReads(Group(SIGNED_WHOLE), Both(FRACTION, EXPONENT), s);
    if k: nat :| k <= |s| && Reads(Group(SIGNED_WHOLE), s[..k]) && Reads(Both(FRACTION, EXPONENT), s[k..]) {
      DecimalSplit(s, k);
    }
    if negative, whole, fraction, exponent :| IsDecimal(s, negative, whole, fraction, exponent) {
      var k := DecimalJoined(s, negative, whole, fraction, exponent);
    }
  }

  lemma DecimalSplit(s: string, k: nat)
    requires k <= |s| && Reads(Group(SIGNED_WHOLE), s[..k]) && Reads(Both(FRACTION, EXPONENT), s[k..])
    ensures exists negative, whole, fraction, exponent :: IsDecimal(s, negative, whole, fraction, exponent)
  {
    hide Reads, IsWhole, IsFraction, IsExponent;
    GroupReads(SIGNED_WHOLE, s[..k]);
    IntegerReads(s[..k]);
    var negative, whole :| IsSignedWhole(s[..k], negative, whole);
    TailReads(s[k..]);
    var tail := s[k..];
    var m: nat :| m <= |tail| && IsFraction(tail[..m]) && IsExponent(tail[m..]);
    assert s == s[..k] + (tail[..m] + tail[m..]);
    assert IsDecimal(s, negative, whole, tail[..m], tail[m..]);
  }

  lemma DecimalJoined(s: string, negative: bool, whole: string, fraction: string, exponent: string) returns (k: nat)
    requires IsDecimal(s, negative, whole, fraction, exponent)
    ensures k <= |s| && Reads(Group(SIGNED_WHOLE), s[..k]) && Reads(Both(FRACTION, EXPONENT), s[k..])
  {
    hide Reads, IsWhole, IsFraction, IsExponent;
    k := |Minus(negative) + whole|;
    assert s[..k] == Minus(negative) + whole && s[k..] == fraction + exponent;
    assert IsSignedWhole(s[..k], negative, whole);
    IntegerReads(s[..k]);
    GroupReads(SIGNED_WHOLE, s[..k]);
    var tail := s[k..];
    assert tail[..|fraction|] == fraction && tail[|fraction|..] == exponent;
    TailReads(tail);
  }

  lemma GroupReads(p: Pattern, s: string)
    ensures Reads(Group(p), s) <==> Reads(p, s)
  {
  }

  // ---------- JSON numbers ----------

  predicate IsInteger(n: JsonNumber) {
    n.fraction == "" && n.exponent.None?
  }

  // The exponent, if there is one, is written with a sign.
  predicate SignWritten(n: JsonNumber) {
    n.exponent.Some? ==> n.exponent.value.sign != ""
  }

  // The integer pattern matches exactly the JSON numbers without a fraction and an exponent.
  lemma IntegersMatch(s: string)
    ensures Reads(SIGNED_WHOLE, s) <==> exists n :: Numbers.Valid(n) && IsInteger(n) && Spell(n) == s
  {
    hide Reads;
    IntegerReads(s);
    if negative, digits :| IsSignedWhole(s, negative, digits) {
      var n := JsonNumber(negative, digits, "", None);
      assert Numbers.Valid(n) && IsInteger(n) && Spell(n) == s;
    }
    if n :| Numbers.Valid(n) && IsInteger(n) && Spell(n) == s {
      assert IsSignedWhole(s, n.negative, n.integer);
    }
  }

  // The number pattern matches exactly the JSON numbers that write the sign of their exponent.
  lemma NumbersMatch(s: string)
    ensures Reads(DECIMAL, s) <==> exists n :: Numbers.Valid(n) && SignWritten(n) && Spell(n) == s
  {
    hide Reads, Spell, Numbers.Valid, SignWritten;
    DecimalReads(s);
    if negative, whole, fraction, exponent :| IsDecimal(s, negative, whole, fraction, exponent) {
      var n := NumberOf(negative, whole, fraction, exponent);
    }
    if n :| Numbers.Valid(n) && SignWritten(n) && Spell(n) == s {
      NumberParts(n);
    }
  }

  // The number with these parts.
  lemma NumberOf(negative: bool, whole: string, fraction: string, exponent: string) returns (n: JsonNumber)
    requires IsWhole(whole) && IsFraction(fraction) && IsExponent(exponent)
    ensures Numbers.Valid(n) && SignWritten(n) && Spell(n) == Minus(negative) + whole + fraction + exponent
  {
    n := JsonNumber(negative, whole, if fraction == "" then "" else fraction[1..],
      if exponent == "" then None else Some(Exponent(exponent[0], exponent[1..2], exponent[2..])));
    assert fraction == if n.fraction == "" then "" else "." + n.fraction;
    if exponent != "" {
      assert exponent == [exponent[0]] + exponent[1..2] + exponent[2..];
    }
  }

  function FractionText(n: JsonNumber): string {
    if n.fraction == "" then "" else "." + n.fraction
  }

  function ExponentPart(n: JsonNumber): string {
    if n.exponent.None? then "" else [n.exponent.value.mark] + (n.exponent.value.sign + n.exponent.value.digits)
  }

  lemma PartsShaped(n: JsonNumber)
    requires Numbers.Valid(n) && SignWritten(n)
    ensures IsWhole(n.integer) && IsFraction(FractionText(n)) && IsExponent(ExponentPart(n))
  {
    if n.fraction != "" {
      assert FractionText(n)[1..] == n.fraction;
    }
    if n.exponent.Some? {
      assert |n.exponent.value.sign| == 1;
      assert ExponentPart(n)[2..] == n.exponent.value.digits;
    }
  }

  lemma PartsJoined(n: JsonNumber)
    ensures Spell(n) == Minus(n.negative) + n.integer + FractionText(n) + ExponentPart(n)
  {
  }

  // The parts of a number.
  lemma NumberParts(n: JsonNumber)
    requires Numbers.Valid(n) && SignWritten(n)
    ensures exists negative, whole, fraction, exponent :: IsDecimal(Spell(n), negative, whole, fraction, exponent)
  {
    hide Spell, FractionText, ExponentPart, IsWhole, IsFraction, IsExponent, Numbers.Valid;
    PartsShaped(n);
    PartsJoined(n);
    assert IsDecimal(Spell(n), n.negative, n.integer, FractionText(n), ExponentPart(n));
  }

  // ---------- Words ----------

  function Spelled(word: string): Pattern
    requires word != ""
  {
    if |word| == 1 then Character(word[0]) else Both(Character(word[0]), Spelled(word[1..]))
  }

  lemma {:induction false} SpelledText(word: string)
    requires word != "" && '.' !in word
    ensures Text(Spelled(word)) == word
    decreases |word|
  {
    if |word| > 1 {
      SpelledText(word[1..]);
      assert [word[0]] + word[1..] == word;
    }
  }

  lemma {:induction false} SpelledReads(word: string, s: string)
    requires word != ""
    ensures Reads(Spelled(word), s) <==> s == word
    decreases |word|
  {
    if |word| > 1 {
      BothReads(Character(word[0]), Spelled(word[1..]), s);
      forall k: nat | k <= |s| ensures Reads(Character(word[0]), s[..k]) <==> k == 1 && s[0] == word[0] {
      }
      if s != "" {
        SpelledReads(word[1..], s[1..]);
      }
      hide Reads;
      assert s != "" ==> s == [s[0]] + s[1..];
      assert word == [word[0]] + word[1..];
    }
  }

  const NOTHING := Spelled("null")
  const TRUTH := Group(Either(Spelled("true"), Spelled("false")))

  lemma WordTexts()
    ensures Text(NOTHING) == NULL && Text(TRUTH) == BOOLEAN
  {
    hide Spelled;
    SpelledText("null");
    SpelledText("true");
    SpelledText("false");
  }

  lemma WordsMatch(s: string)
    ensures Reads(NOTHING, s) <==> s == "null"
    ensures Reads(TRUTH, s) <==> s == "true" || s == "false"
  {
    SpelledReads("null", s);
    SpelledReads("true", s);
    SpelledReads("false", s);
    GroupReads(Either(Spelled("true"), Spelled("false")), s);
  }

  // ---------- The scalar types ----------

  // The bytes of the text, which has no others than ASCII characters.
  predicate Encoded(s: string, w: Word) {
    |s| == |w| && forall i :: 0 <= i < |w| ==> w[i] == s[i] as int
  }

  // The patterns as they are written are read as the regular expressions they are.
  ghost predicate ReadsAs(meaning: Meaning, p: Pattern) {
    forall w: Word :: w in meaning(Text(p)) <==> exists s :: Encoded(s, w) && Reads(p, s)
  }

  ghost predicate ReadsPatterns(meaning: Meaning) {
    ReadsAs(meaning, SIGNED_WHOLE) && ReadsAs(meaning, DECIMAL) && ReadsAs(meaning, NOTHING) && ReadsAs(meaning, TRUTH)
  }

  // What the text of a value of the type is.
  ghost predicate IsValueText(kind: NormalizedSchema, s: string) {
    match kind
    case NullValue => s == "null"
    case BooleanValue => s == "true" || s == "false"
    case IntegerValue => exists n :: Numbers.Valid(n) && IsInteger(n) && Spell(n) == s
    case NumberValue => exists n :: Numbers.Valid(n) && SignWritten(n) && Spell(n) == s
    case _ => false
  }

  // Main result: over any schemas, the scalar types other than strings admit exactly the texts of their values.
  lemma ScalarsAdmit(meaning: Meaning, strings: Strings, quote: Quoting, kind: NormalizedSchema, w: Word)
    requires ReadsPatterns(meaning)
    requires kind.NullValue? || kind.BooleanValue? || kind.IntegerValue? || kind.NumberValue?
    ensures Admits(meaning, quote, strings, kind, w) <==> exists s :: Encoded(s, w) && IsValueText(kind, s)
  {
    var p := match kind
      case NullValue => NOTHING
      case BooleanValue => TRUTH
      case IntegerValue => SIGNED_WHOLE
      case _ => DECIMAL;
    assert Text(p) == PatternText(kind) by {
      hide Text;
      WordTexts();
      IntegerText();
      NumberText();
    }
    hide Text, Reads, PatternText;
    forall s ensures Reads(p, s) <==> IsValueText(kind, s) {
      WordsMatch(s);
      IntegersMatch(s);
      NumbersMatch(s);
    }
    assert ReadsAs(meaning, p);
  }
}
