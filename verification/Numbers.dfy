/**
 Canonical numbers: the shorter of the plain and the scientific spelling of a decimal.  Whenever there is one it is a
 JSON number of the same value, two numbers have the same one exactly when their values are equal, and reading it
 again gives the same sign, digits and scale.
 */
module Numbers {
  import opened Grammars
  import opened Decimals

  const I128_MAX: int := 0x7FFF_FFFF_FFFF_FFFF_FFFF_FFFF_FFFF_FFFF
  const I128_MIN: int := -I128_MAX - 1
  const USIZE_MAX: nat := 0xFFFF_FFFF_FFFF_FFFF

  predicate FitsI128(i: int) {
    I128_MIN <= i <= I128_MAX
  }

  // ---------- JSON numbers (section 6 of RFC 8259) ----------

  datatype Exponent = Exponent(mark: char, sign: string, digits: string)

  // An absent fraction is empty.
  datatype JsonNumber = JsonNumber(negative: bool, integer: string, fraction: string, exponent: Option<Exponent>)

  predicate ValidExponent(e: Exponent) {
    (e.mark == 'e' || e.mark == 'E') && (e.sign == "" || e.sign == "+" || e.sign == "-") && e.digits != ""
      && AllDigits(e.digits)
  }

  predicate Valid(n: JsonNumber) {
    && n.integer != "" && AllDigits(n.integer) && (n.integer[0] == '0' ==> n.integer == "0") && AllDigits(n.fraction)
    && (n.exponent.Some? ==> ValidExponent(n.exponent.value))
  }

  function Mantissa(n: JsonNumber): string {
    n.integer + if n.fraction == "" then "" else "." + n.fraction
  }

  function Signed(n: JsonNumber): string {
    (if n.negative then "-" else "") + Mantissa(n)
  }

  function Spell(n: JsonNumber): string {
    Signed(n) + if n.exponent.None? then ""
                else [n.exponent.value.mark] + n.exponent.value.sign + n.exponent.value.digits
  }

  function ExponentValue(n: JsonNumber): int
    requires Valid(n)
  {
    if n.exponent.None? then 0
    else if n.exponent.value.sign == "-" then -(DigitsValue(n.exponent.value.digits) as int)
    else DigitsValue(n.exponent.value.digits)
  }

  // The decimal value the number stands for.
  ghost function Value(n: JsonNumber): real
    requires Valid(n)
  {
    AllDigitsJoin(n.integer, n.fraction);
    Decimal(n.negative, DigitsValue(n.integer + n.fraction), ExponentValue(n) - |n.fraction|)
  }

  ghost function Decimal(negative: bool, digits: nat, scale: int): real {
    (if negative then -1.0 else 1.0) * (digits as real) * Power(scale)
  }

  // ---------- Reading ----------

  // The text before and after the first of the marks.
  function SplitOnce(s: string, marks: set<char>): Option<(string, string)> {
    if s == "" then None
    else if s[0] in marks then Some(("", s[1..]))
    else
      match SplitOnce(s[1..], marks)
      case None => None
      case Some((before, after)) => Some(([s[0]] + before, after))
  }

  function ParseI128(s: string): Option<int> {
    var signed := s != "" && (s[0] == '-' || s[0] == '+');
    var digits := if signed then s[1..] else s;
    if digits == "" || !AllDigits(digits) then None
    else
      var i: int := if signed && s[0] == '-' then -(DigitsValue(digits) as int) else DigitsValue(digits);
      if FitsI128(i) then Some(i) else None
  }

  datatype DecimalParts = DecimalParts(negative: bool, digits: string, scale: int)

  const ZERO := DecimalParts(false, "0", 0)

  // Sign, significant digits and scale; None when the exponent or the scale leaves the range.
  function ReadParts(text: string): (r: Option<DecimalParts>)
    ensures r.Some? ==> r.value.digits != ""
  {
    var split := SplitOnce(text, {'e', 'E'});
    var exponent := if split.Some? then ParseI128(split.value.1) else Some(0);
    if exponent.None? then None
    else
      ReadSigned(if split.Some? then split.value.0 else text, exponent.value)
  }

  function ReadSigned(signed: string, exponent: int): (r: Option<DecimalParts>)
    ensures r.Some? ==> r.value.digits != ""
  {
    var negative := signed != "" && signed[0] == '-';
    var mantissa := if negative then signed[1..] else signed;
    var point := SplitOnce(mantissa, {'.'});
    var (integer, fraction) := if point.Some? then point.value else (mantissa, "");
    PartsFrom(negative, integer, fraction, exponent)
  }

  function PartsFrom(negative: bool, integer: string, fraction: string, exponent: int): (r: Option<DecimalParts>)
    ensures r.Some? ==> r.value.digits != ""
  {
    var digits := TrimLeading(integer + fraction);
    if digits == "" then Some(ZERO)
    else
      var significant := TrimTrailing(digits);
      if !FitsI128(exponent - |fraction|) || !FitsI128(exponent - |fraction| + (|digits| - |significant|)) then None
      else Some(DecimalParts(negative, significant, exponent - |fraction| + (|digits| - |significant|)))
  }

  lemma {:induction false} SplitAt(before: string, c: char, after: string, marks: set<char>)
    requires c in marks && forall i :: 0 <= i < |before| ==> before[i] !in marks
    ensures SplitOnce(before + [c] + after, marks) == Some((before, after))
    decreases |before|
  {
    var s := before + [c] + after;
    if before == "" {
      assert s[1..] == after;
    } else {
      assert s[1..] == before[1..] + [c] + after;
      SplitAt(before[1..], c, after, marks);
      assert [s[0]] + before[1..] == before;
    }
  }

  lemma {:induction false} SplitNowhere(s: string, marks: set<char>)
    requires forall i :: 0 <= i < |s| ==> s[i] !in marks
    ensures SplitOnce(s, marks) == None
    decreases |s|
  {
    if s != "" {
      SplitNowhere(s[1..], marks);
    }
  }

  lemma ParseExponent(e: Exponent)
    requires ValidExponent(e)
    ensures var i: int := if e.sign == "-" then -(DigitsValue(e.digits) as int) else DigitsValue(e.digits);
            ParseI128(e.sign + e.digits) == if FitsI128(i) then Some(i) else None
  {
    var s := e.sign + e.digits;
    if e.sign == "" {
      assert s == e.digits && s[0] in e.digits;
    } else {
      assert s[1..] == e.digits;
    }
  }

  lemma MantissaSplits(n: JsonNumber)
    requires Valid(n)
    ensures SplitOnce(Mantissa(n), {'.'}) == if n.fraction == "" then None else Some((n.integer, n.fraction))
    ensures Mantissa(n) != "" && Mantissa(n)[0] != '-' && (n.fraction == "" ==> Mantissa(n) == n.integer)
  {
    forall i | 0 <= i < |n.integer| ensures n.integer[i] !in {'.'} && n.integer[i] != '-' {
      assert n.integer[i] in n.integer;
    }
    if n.fraction == "" {
      assert Mantissa(n) == n.integer;
      SplitNowhere(n.integer, {'.'});
    } else {
      assert Mantissa(n) == n.integer + ['.'] + n.fraction;
      SplitAt(n.integer, '.', n.fraction, {'.'});
    }
  }

  lemma SignedPlain(n: JsonNumber)
    requires Valid(n)
    ensures forall i :: 0 <= i < |Signed(n)| ==> Signed(n)[i] !in {'e', 'E'}
  {
    forall i | 0 <= i < |n.integer| ensures n.integer[i] !in {'e', 'E'} {
      assert n.integer[i] in n.integer;
    }
    forall i | 0 <= i < |n.fraction| ensures n.fraction[i] !in {'e', 'E'} {
      assert n.fraction[i] in n.fraction;
    }
    var start := if n.negative then "-" else "";
    var tail := if n.fraction == "" then "" else "." + n.fraction;
    assert Signed(n) == start + (n.integer + tail);
  }

  lemma SignedReads(n: JsonNumber, exponent: int)
    requires Valid(n)
    ensures ReadSigned(Signed(n), exponent) == PartsFrom(n.negative, n.integer, n.fraction, exponent)
  {
    hide PartsFrom, Mantissa, SplitOnce, AllDigits;
    MantissaSplits(n);
    var signed := Signed(n);
    if n.negative {
      assert signed[0] == '-' && signed[1..] == Mantissa(n);
    } else {
      assert signed == Mantissa(n);
    }
  }

  // Reading a JSON number reads its own integer, fraction and exponent.
  lemma ReadSpelled(n: JsonNumber)
    requires Valid(n)
    ensures ReadParts(Spell(n)) ==
            if FitsI128(ExponentValue(n)) then PartsFrom(n.negative, n.integer, n.fraction, ExponentValue(n)) else None
  {
    hide PartsFrom, Mantissa, Signed, ReadSigned, SplitOnce, ParseI128, AllDigits, DigitsValue;
    SignedPlain(n);
    SignedReads(n, ExponentValue(n));
    var text, signed := Spell(n), Signed(n);
    if n.exponent.None? {
      assert text == signed;
      SplitNowhere(text, {'e', 'E'});
    } else {
      var e := n.exponent.value;
      assert text == signed + [e.mark] + (e.sign + e.digits);
      SplitAt(signed, e.mark, e.sign + e.digits, {'e', 'E'});
      ParseExponent(e);
    }
  }

  // ---------- Normal parts ----------

  // Zero, or digits without zeros at either end.
  predicate Trimmed(p: DecimalParts) {
    p == ZERO || (AllDigits(p.digits) && p.digits != "" && p.digits[0] != '0' && p.digits[|p.digits| - 1] != '0')
  }

  predicate Normal(p: DecimalParts) {
    Trimmed(p) && FitsI128(p.scale)
  }

  ghost function PartsValue(p: DecimalParts): real
    requires Trimmed(p)
  {
    assert AllDigits("0") && AllDigits(p.digits);
    Decimal(p.negative, DigitsValue(p.digits), p.scale)
  }

  lemma DecimalZero(negative: bool, scale: int)
    ensures Decimal(negative, 0, scale) == 0.0
  {
  }

  // Ten more in the digits, one less in the scale.
  lemma DecimalShift(negative: bool, digits: nat, n: nat, scale: int)
    ensures Decimal(negative, digits * Pow10(n), scale) == Decimal(negative, digits, scale + n)
  {
    hide Power, Pow10;
    PowerAdd(scale, n);
    var d, p, q := digits as real, Pow10(n) as real, Power(scale);
    assert (digits * Pow10(n)) as real == d * p;
    Reassociate(if negative then -1.0 else 1.0, d, p, q);
  }

  lemma Reassociate(s: real, d: real, p: real, q: real)
    ensures s * (d * p) * q == s * d * (q * p)
  {
  }

  // The significant digits: what both trims leave, and what they drop.
  lemma TrimmedValue(digits: string)
    requires AllDigits(digits)
    ensures var leading := TrimLeading(digits);
            var significant := TrimTrailing(leading);
            && AllDigits(significant) && |significant| <= |leading|
            && DigitsValue(digits) == DigitsValue(significant) * Pow10(|leading| - |significant|)
            && (leading != "" ==> significant != "" && significant[0] != '0')
  {
    hide DigitsValue, TrimLeading, TrimTrailing, Pow10, AllZeros;
    var leading := TrimLeading(digits);
    var significant := TrimTrailing(leading);
    LeadingZeros(digits);
    TrailingZeros(leading);
    var z := digits[..|digits| - |leading|];
    AllDigitsParts(digits, |digits| - |leading|);
    assert digits == z + leading;
    ValueJoin(z, leading);
    ZerosValue(z);
    assert 0 * Pow10(|leading|) == 0;
    assert AllDigits(leading);
    AllDigitsParts(leading, |significant|);
    assert leading == significant + leading[|significant|..];
    ValueJoin(significant, leading[|significant|..]);
    ZerosValue(leading[|significant|..]);
  }

  lemma ZeroValue()
    ensures AllDigits("0") && DigitsValue("0") == 0 && PartsValue(ZERO) == 0.0
  {
    assert DigitsValue("0") == 10 * DigitsValue("") + 0;
    DecimalZero(false, 0);
  }

  lemma TrimmedDecimal(negative: bool, digits: string, scale: int)
    requires AllDigits(digits)
    ensures var leading := TrimLeading(digits);
            var significant := TrimTrailing(leading);
            && AllDigits(significant) && |significant| <= |leading|
               && (leading != "" ==> significant != "" && significant[0] != '0')
            && Decimal(negative, DigitsValue(digits), scale) ==
               Decimal(negative, DigitsValue(significant), scale + (|leading| - |significant|))
  {
    hide Decimal, DigitsValue, TrimLeading, TrimTrailing;
    var leading := TrimLeading(digits);
    var significant := TrimTrailing(leading);
    TrimmedValue(digits);
    DecimalShift(negative, DigitsValue(significant), |leading| - |significant|, scale);
  }

  // Reading keeps the value.
  lemma PartsFromValue(n: JsonNumber)
    requires Valid(n)
    ensures var p := PartsFrom(n.negative, n.integer, n.fraction, ExponentValue(n));
            p.Some? ==> Normal(p.value) && PartsValue(p.value) == Value(n)
  {
    hide Decimal, DigitsValue, TrimLeading, TrimTrailing, ExponentValue;
    AllDigitsJoin(n.integer, n.fraction);
    ZeroValue();
    EmptyValue();
    TrimmedDecimal(n.negative, n.integer + n.fraction, ExponentValue(n) - |n.fraction|);
    DecimalZero(n.negative, ExponentValue(n) - |n.fraction|);
  }

  lemma EmptyValue()
    ensures TrimTrailing("") == "" && DigitsValue("") == 0
    ensures forall negative, scale :: Decimal(negative, 0, scale) == 0.0
  {
    forall negative, scale ensures Decimal(negative, 0, scale) == 0.0 {
      DecimalZero(negative, scale);
    }
  }

  // Trimmed parts are determined by their value.
  lemma PartsUnique(p: DecimalParts, q: DecimalParts)
    requires Trimmed(p) && Trimmed(q) && PartsValue(p) == PartsValue(q)
    ensures p == q
  {
    if p.scale <= q.scale {
      OrderedUnique(p, q);
    } else {
      OrderedUnique(q, p);
    }
  }

  lemma NonzeroValue(negative: bool, digits: nat, scale: int)
    requires digits > 0
    ensures Decimal(negative, digits, scale) != 0.0 && (Decimal(negative, digits, scale) < 0.0 <==> negative)
  {
    assert (digits as real) * Power(scale) > 0.0;
    assert Decimal(negative, digits, scale) == (if negative then -1.0 else 1.0) * ((digits as real) * Power(scale));
  }

  lemma OrderedUnique(p: DecimalParts, q: DecimalParts)
    requires Trimmed(p) && Trimmed(q) && PartsValue(p) == PartsValue(q) && p.scale <= q.scale
    ensures p == q
  {
    ZeroValue();
    if p != ZERO {
      PositiveValue(p.digits);
      NonzeroValue(p.negative, DigitsValue(p.digits), p.scale);
    }
    if q != ZERO {
      PositiveValue(q.digits);
      NonzeroValue(q.negative, DigitsValue(q.digits), q.scale);
    }
    if p != ZERO && q != ZERO {
      var k := q.scale - p.scale;
      DecimalShift(q.negative, DigitsValue(q.digits), k, p.scale);
      SameDigits(p.negative, DigitsValue(p.digits), DigitsValue(q.digits) * Pow10(k), p.scale);
      NoMultiple(p.digits);
      if k > 0 {
        TenDivides(DigitsValue(q.digits), Pow10(k - 1));
      }
      assert DigitsValue(q.digits) * 1 == DigitsValue(q.digits);
      DigitsUnique(p.digits, q.digits);
    }
  }

  lemma TenDivides(a: nat, b: nat)
    ensures (a * (10 * b)) % 10 == 0
  {
    assert a * (10 * b) == 10 * (a * b);
  }

  lemma SameDigits(negative: bool, a: nat, b: nat, scale: int)
    requires Decimal(negative, a, scale) == Decimal(negative, b, scale)
    ensures a == b
  {
    Cancel(if negative then -1.0 else 1.0, a as real, b as real, Power(scale));
  }

  lemma Cancel(s: real, a: real, b: real, p: real)
    requires s * a * p == s * b * p && s != 0.0 && p > 0.0
    ensures a == b
  {
    assert s * a == (s * a * p) / p;
    assert s * b == (s * b * p) / p;
    assert a == (s * a) / s;
    assert b == (s * b) / s;
  }

  // ---------- Writing ----------

  function Sign(p: DecimalParts): string {
    if p.negative then "-" else ""
  }

  function ScientificExponent(p: DecimalParts): int {
    p.scale + |p.digits| - 1
  }

  // One digit before the point, and an exponent unless it is zero.
  function ScientificText(p: DecimalParts): string
    requires p.digits != ""
  {
    var exponent := ScientificExponent(p);
    Sign(p) + p.digits[..1] + (if |p.digits| > 1 then "." + p.digits[1..] else "")
    + if exponent == 0 then "" else "e" + WrittenInt(exponent)
  }

  function WrittenInt(i: int): string {
    if i < 0 then "-" + Written(-i) else Written(i)
  }

  // No exponent: zeros behind the digits, a point among them, or zeros between the point and the digits.
  function PlainText(p: DecimalParts): string {
    if p.scale >= 0 then Sign(p) + p.digits + Zeros(p.scale)
    else if -p.scale < |p.digits| then
      Sign(p) + p.digits[..|p.digits| + p.scale] + "." + p.digits[|p.digits| + p.scale..]
    else Sign(p) + "0." + Zeros(-p.scale - |p.digits|) + p.digits
  }

  // The length of the plain text, worked out without writing it; None when it leaves the range.
  function PlainLength(p: DecimalParts): Option<nat> {
    var sign := if p.negative then 1 else 0;
    if p.scale >= 0 then
      if p.scale > USIZE_MAX || sign + |p.digits| + p.scale > USIZE_MAX then None else Some(sign + |p.digits| + p.scale)
    else if p.scale == I128_MIN || -p.scale > USIZE_MAX then None
    else if -p.scale < |p.digits| then
      if sign + |p.digits| + 1 > USIZE_MAX then None else Some(sign + |p.digits| + 1)
    else
      var length: nat := sign + 2 + (-p.scale - |p.digits|) + |p.digits|;
      if length > USIZE_MAX then None else Some(length)
  }

  // The predicted length is the length.
  lemma PlainLengthExact(p: DecimalParts)
    ensures PlainLength(p).Some? ==> PlainLength(p).value == |PlainText(p)|
  {
  }

  // Write the plain text piece by piece.
  method RenderPlainNumber(p: DecimalParts, length: nat) returns (output: string)
    requires PlainLength(p) == Some(length)
    ensures output == PlainText(p) && |output| == length
  {
    PlainLengthExact(p);
    output := "";
    if p.negative {
      output := output + "-";
    }
    if p.scale >= 0 {
      output := output + p.digits;
      for i := 0 to p.scale
        invariant output == Sign(p) + p.digits + Zeros(i)
      {
        output := output + ['0'];
      }
      return;
    }
    var places := -p.scale;
    if places < |p.digits| {
      var point := |p.digits| - places;
      output := output + p.digits[..point];
      output := output + ".";
      output := output + p.digits[point..];
    } else {
      output := output + "0.";
      for i := 0 to places - |p.digits|
        invariant output == Sign(p) + "0." + Zeros(i)
      {
        output := output + ['0'];
      }
      output := output + p.digits;
    }
  }

  // The canonical spelling of the parts: the scientific one only when it is shorter.
  function CanonicalText(p: DecimalParts): Option<string>
    requires p.digits != ""
  {
    if p.digits == "0" then Some("0")
    else if !FitsI128(ScientificExponent(p)) then None
    else
      match PlainLength(p)
      case None => None
      case Some(length) => Some(if length > |ScientificText(p)| then ScientificText(p) else PlainText(p))
  }

  function CanonicalNumber(text: string): Option<string> {
    match ReadParts(text)
    case None => None
    case Some(p) => CanonicalText(p)
  }

  // ---------- The spelling is a number with the same parts ----------

  function ScientificNumber(p: DecimalParts): JsonNumber
    requires p.digits != ""
  {
    var exponent := ScientificExponent(p);
    var size := if exponent < 0 then -exponent else exponent;
    JsonNumber(p.negative, p.digits[..1], p.digits[1..],
               if exponent == 0 then None else Some(Exponent('e', if exponent < 0 then "-" else "", Written(size))))
  }

  function PlainNumber(p: DecimalParts): JsonNumber {
    if p.scale >= 0 then JsonNumber(p.negative, p.digits + Zeros(p.scale), "", None)
    else if -p.scale < |p.digits| then
      JsonNumber(p.negative, p.digits[..|p.digits| + p.scale], p.digits[|p.digits| + p.scale..], None)
    else JsonNumber(p.negative, "0", Zeros(-p.scale - |p.digits|) + p.digits, None)
  }

  // Normal parts that are not zero.
  predicate Significant(p: DecimalParts) {
    Normal(p) && p != ZERO
  }

  lemma ScientificReads(p: DecimalParts)
    requires Significant(p) && FitsI128(ScientificExponent(p))
    ensures Valid(ScientificNumber(p)) && Spell(ScientificNumber(p)) == ScientificText(p)
    ensures ReadParts(ScientificText(p)) == Some(p)
  {
    hide ReadParts, PartsFrom, Spell, Valid, ExponentValue, ScientificText, ScientificNumber, Written, AllZeros,
      Significant, ScientificExponent, FitsI128;
    SignificantDigits(p);
    var n := ScientificNumber(p);
    ScientificValid(p);
    ScientificSpelled(p);
    ReadSpelled(n);
    NoZeros();
    assert n.integer + n.fraction == p.digits == "" + p.digits + "";
    PartsKept(p.negative, n.integer, n.fraction, "", p.digits, "", ScientificExponent(p));
  }

  lemma SignificantDigits(p: DecimalParts)
    requires Significant(p)
    ensures p.digits != "" && p.digits[0] != '0' && p.digits[|p.digits| - 1] != '0' && FitsI128(p.scale)
    ensures ScientificExponent(p) - |p.digits[1..]| == p.scale && p.digits[..1] + p.digits[1..] == p.digits
  {
  }

  lemma NoZeros()
    ensures AllZeros("")
  {
  }

  lemma ScientificValid(p: DecimalParts)
    requires Significant(p)
    ensures var n := ScientificNumber(p);
            && Valid(n) && ExponentValue(n) == ScientificExponent(p)
            && n.negative == p.negative && n.integer == p.digits[..1] && n.fraction == p.digits[1..]
  {
    AllDigitsParts(p.digits, 1);
  }

  lemma ScientificSpelled(p: DecimalParts)
    requires Significant(p)
    ensures Spell(ScientificNumber(p)) == ScientificText(p)
  {
    var n := ScientificNumber(p);
    var exponent := ScientificExponent(p);
    var tail := if exponent == 0 then "" else "e" + WrittenInt(exponent);
    assert (n.fraction == "") == (|p.digits| == 1);
    assert Signed(n) == Sign(p) + p.digits[..1] + (if |p.digits| > 1 then "." + p.digits[1..] else "");
    if exponent != 0 {
      assert [n.exponent.value.mark] + n.exponent.value.sign + n.exponent.value.digits == tail;
    }
    assert Spell(n) == Signed(n) + tail;
  }

  // Zeros around the significant digits are read away.
  lemma PartsKept(negative: bool, integer: string, fraction: string, before: string, digits: string, after: string,
      exponent: int)
    requires integer + fraction == before + digits + after && AllZeros(before) && AllZeros(after)
    requires digits != "" && digits[0] != '0' && digits[|digits| - 1] != '0'
    requires FitsI128(exponent - |fraction|) && FitsI128(exponent - |fraction| + |after|)
    ensures PartsFrom(negative, integer, fraction, exponent) ==
            Some(DecimalParts(negative, digits, exponent - |fraction| + |after|))
  {
    hide TrimLeading, TrimTrailing, AllZeros;
    assert before + digits + after == before + (digits + after);
    TrimLeadingZeros(before, digits + after);
    TrimTrailingZeros(digits, after);
  }

  lemma PlainReads(p: DecimalParts)
    requires Significant(p) && PlainLength(p).Some?
    ensures Valid(PlainNumber(p)) && Spell(PlainNumber(p)) == PlainText(p) && ReadParts(PlainText(p)) == Some(p)
  {
    hide ReadParts, PartsFrom, Spell, PlainText;
    PlainSpelled(p);
    ReadSpelled(PlainNumber(p));
    PlainKept(p);
  }

  lemma PlainKept(p: DecimalParts)
    requires Significant(p)
    ensures var n := PlainNumber(p);
            n.exponent.None? && PartsFrom(n.negative, n.integer, n.fraction, 0) == Some(p)
  {
    hide PartsFrom, Significant;
    if p.scale >= 0 {
      WholeKept(p);
    } else if -p.scale < |p.digits| {
      PointKept(p);
    } else {
      SmallKept(p);
    }
  }

  lemma WholeKept(p: DecimalParts)
    requires Significant(p) && p.scale >= 0
    ensures PartsFrom(p.negative, p.digits + Zeros(p.scale), "", 0) == Some(p)
  {
    hide PartsFrom, Significant, AllZeros, ScientificExponent;
    SignificantDigits(p);
    NoZeros();
    var integer := p.digits + Zeros(p.scale);
    assert integer + "" == "" + p.digits + Zeros(p.scale);
    PartsKept(p.negative, integer, "", "", p.digits, Zeros(p.scale), 0);
  }

  lemma PointKept(p: DecimalParts)
    requires Significant(p) && -|p.digits| < p.scale < 0
    ensures var point := |p.digits| + p.scale;
            PartsFrom(p.negative, p.digits[..point], p.digits[point..], 0) == Some(p)
  {
    hide PartsFrom, Significant, AllZeros, ScientificExponent;
    SignificantDigits(p);
    NoZeros();
    var point := |p.digits| + p.scale;
    assert p.digits[..point] + p.digits[point..] == "" + p.digits + "";
    PartsKept(p.negative, p.digits[..point], p.digits[point..], "", p.digits, "", 0);
  }

  lemma SmallKept(p: DecimalParts)
    requires Significant(p) && p.scale <= -|p.digits|
    ensures PartsFrom(p.negative, "0", Zeros(-p.scale - |p.digits|) + p.digits, 0) == Some(p)
  {
    hide PartsFrom, Significant, AllZeros, ScientificExponent;
    SignificantDigits(p);
    NoZeros();
    var fraction := Zeros(-p.scale - |p.digits|) + p.digits;
    var zeros := "0" + Zeros(-p.scale - |p.digits|);
    MoreZeros(-p.scale - |p.digits|);
    assert "0" + fraction == zeros + p.digits + "";
    PartsKept(p.negative, "0", fraction, zeros, p.digits, "", 0);
  }

  lemma MoreZeros(n: nat)
    ensures AllZeros("0" + Zeros(n))
  {
  }

  lemma PlainSpelled(p: DecimalParts)
    requires Significant(p)
    ensures Valid(PlainNumber(p)) && Spell(PlainNumber(p)) == PlainText(p)
  {
    hide Valid, Spell;
    if p.scale >= 0 {
      WholeSpelled(p.negative, p.digits, Zeros(p.scale));
    } else if -p.scale < |p.digits| {
      assert p.digits == p.digits[..|p.digits| + p.scale] + p.digits[|p.digits| + p.scale..];
      PointSpelled(p.negative, p.digits[..|p.digits| + p.scale], p.digits[|p.digits| + p.scale..]);
    } else {
      SmallSpelled(p.negative, Zeros(-p.scale - |p.digits|), p.digits);
    }
  }

  lemma WholeSpelled(negative: bool, digits: string, zeros: string)
    requires AllDigits(digits) && AllDigits(zeros) && digits != "" && digits[0] != '0'
    ensures var n := JsonNumber(negative, digits + zeros, "", None);
            Valid(n) && Spell(n) == (if negative then "-" else "") + digits + zeros
  {
    AllDigitsJoin(digits, zeros);
    var n := JsonNumber(negative, digits + zeros, "", None);
    assert Spell(n) == Signed(n);
  }

  lemma PointSpelled(negative: bool, front: string, back: string)
    requires AllDigits(front + back) && front != "" && front[0] != '0' && back != ""
    ensures var n := JsonNumber(negative, front, back, None);
            Valid(n) && Spell(n) == (if negative then "-" else "") + front + "." + back
  {
    AllDigitsParts(front + back, |front|);
    assert (front + back)[..|front|] == front && (front + back)[|front|..] == back;
    var n := JsonNumber(negative, front, back, None);
    assert Spell(n) == Signed(n);
  }

  lemma SmallSpelled(negative: bool, zeros: string, digits: string)
    requires AllDigits(digits) && AllDigits(zeros) && digits != ""
    ensures var n := JsonNumber(negative, "0", zeros + digits, None);
            Valid(n) && Spell(n) == (if negative then "-" else "") + "0." + zeros + digits
  {
    AllDigitsJoin(zeros, digits);
    var n := JsonNumber(negative, "0", zeros + digits, None);
    assert Spell(n) == Signed(n);
    assert "0" + ("." + (zeros + digits)) == "0." + zeros + digits;
  }

  // ---------- Main results ----------

  lemma ZeroReads()
    ensures Valid(JsonNumber(false, "0", "", None)) && Spell(JsonNumber(false, "0", "", None)) == "0"
    ensures ReadParts("0") == Some(ZERO)
  {
    var n := JsonNumber(false, "0", "", None);
    assert Spell(n) == "0";
    ReadSpelled(n);
    assert "0"[1..] == "";
    assert TrimLeading("0") == TrimLeading("");
  }

  // One digit before the point, and not a zero.
  predicate OneDigit(m: JsonNumber) {
    |m.integer| == 1 && m.integer[0] != '0'
  }

  // Reading the canonical text again gives the same parts.
  lemma CanonicalReads(p: DecimalParts) returns (n: JsonNumber)
    requires Normal(p) && CanonicalText(p).Some?
    ensures Valid(n) && Spell(n) == CanonicalText(p).value && ReadParts(CanonicalText(p).value) == Some(p)
    ensures n.exponent.None? || OneDigit(n)
  {
    hide ReadParts, Spell, ScientificText, PlainText, PlainLength;
    if p == ZERO {
      ZeroReads();
      n := JsonNumber(false, "0", "", None);
    } else if PlainLength(p).value > |ScientificText(p)| {
      ScientificReads(p);
      n := ScientificNumber(p);
    } else {
      PlainReads(p);
      n := PlainNumber(p);
    }
  }

  // Reading a number gives normal parts of its value.
  lemma ReadsValue(n: JsonNumber)
    requires Valid(n)
    ensures ReadParts(Spell(n)).Some? ==>
            Normal(ReadParts(Spell(n)).value) && PartsValue(ReadParts(Spell(n)).value) == Value(n)
  {
    hide ReadParts, PartsFrom, Value, PartsValue, Normal;
    ReadSpelled(n);
    PartsFromValue(n);
  }

  // The canonical text is a JSON number of the same value, and is its own canonical text.
  lemma CanonicalSameValue(n: JsonNumber) returns (m: JsonNumber)
    requires Valid(n) && CanonicalNumber(Spell(n)).Some?
    ensures Valid(m) && Spell(m) == CanonicalNumber(Spell(n)).value && Value(m) == Value(n)
    ensures ReadParts(Spell(m)) == ReadParts(Spell(n)) && CanonicalNumber(Spell(m)) == CanonicalNumber(Spell(n))
    ensures m.exponent.None? || OneDigit(m)
  {
    hide ReadParts, Spell, Value, PartsValue, Normal, CanonicalText, OneDigit;
    ReadsValue(n);
    m := CanonicalReads(ReadParts(Spell(n)).value);
    ReadsValue(m);
  }

  // Two numbers have the same canonical text exactly when they have the same value.
  lemma CanonicalIff(n: JsonNumber, m: JsonNumber)
    requires Valid(n) && Valid(m) && CanonicalNumber(Spell(n)).Some? && CanonicalNumber(Spell(m)).Some?
    ensures CanonicalNumber(Spell(n)) == CanonicalNumber(Spell(m)) <==> Value(n) == Value(m)
  {
    hide ReadParts, Spell, Value, PartsValue, Trimmed, CanonicalText;
    ReadsValue(n);
    ReadsValue(m);
    var p, q := ReadParts(Spell(n)).value, ReadParts(Spell(m)).value;
    if Value(n) == Value(m) {
      PartsUnique(p, q);
    }
    if CanonicalNumber(Spell(n)) == CanonicalNumber(Spell(m)) {
      var a := CanonicalReads(p);
      var b := CanonicalReads(q);
    }
  }

  // ---------- When there is a canonical text ----------

  function LeadingCount(s: string): nat {
    if s != "" && s[0] == '0' then 1 + LeadingCount(s[1..]) else 0
  }

  function TrailingCount(s: string): nat {
    if s != "" && s[|s| - 1] == '0' then 1 + TrailingCount(s[..|s| - 1]) else 0
  }

  lemma {:induction false} LeadingCounted(s: string)
    ensures |TrimLeading(s)| == |s| - LeadingCount(s) && (TrimLeading(s) == "" <==> AllZeros(s))
    decreases |s|
  {
    if s != "" && s[0] == '0' {
      LeadingCounted(s[1..]);
      ZerosBehind(s);
    }
  }

  lemma ZerosBehind(s: string)
    requires s != "" && s[0] == '0'
    ensures AllZeros(s) <==> AllZeros(s[1..])
  {
    if AllZeros(s[1..]) {
      forall i | 0 <= i < |s| ensures s[i] == '0' {
        assert i == 0 || s[i] == s[1..][i - 1];
      }
    }
  }

  lemma {:induction false} TrailingCounted(s: string)
    ensures |TrimTrailing(s)| == |s| - TrailingCount(s)
    decreases |s|
  {
    if s != "" && s[|s| - 1] == '0' {
      TrailingCounted(s[..|s| - 1]);
    }
  }

  // Zeros in front do not change the zeros behind, unless there is nothing else.
  lemma {:induction false} BehindLeading(s: string)
    requires !AllZeros(s)
    ensures TrailingCount(TrimLeading(s)) == TrailingCount(s)
    decreases |s|
  {
    if s[0] == '0' {
      assert s == [s[0]] + s[1..];
      BehindLeading(s[1..]);
      BehindFirst(s);
    }
  }

  lemma {:induction false} BehindFirst(s: string)
    requires s != "" && !AllZeros(s[1..])
    ensures TrailingCount(s[1..]) == TrailingCount(s)
    decreases |s|
  {
    if s[|s| - 1] == '0' {
      var front := s[..|s| - 1];
      assert s[1..][..|s| - 2] == front[1..] && s[1..] == front[1..] + [s[|s| - 1]];
      BehindFirst(front);
    }
  }

  // The digits of the number without its point, how many of them are significant, and the power of ten behind them.
  function AllOf(n: JsonNumber): string {
    n.integer + n.fraction
  }

  function Significance(n: JsonNumber): int {
    |AllOf(n)| - LeadingCount(AllOf(n)) - TrailingCount(AllOf(n))
  }

  function Scale(n: JsonNumber): int
    requires Valid(n)
  {
    ExponentValue(n) - |n.fraction| + TrailingCount(AllOf(n))
  }

  // How long the number is without an exponent.
  function PlainSize(n: JsonNumber): int
    requires Valid(n)
  {
    (if n.negative then 1 else 0) +
    if Scale(n) >= 0 then Significance(n) + Scale(n)
    else if -Scale(n) < Significance(n) then Significance(n) + 1
    else 2 - Scale(n)
  }

  // Some integer of the computation leaves its range: the exponent, the two steps to the scale, the scientific exponent
  // or the plain length.  Zero only needs its exponent.
  predicate OutOfRange(n: JsonNumber)
    requires Valid(n)
  {
    || !FitsI128(ExponentValue(n))
    || (!AllZeros(AllOf(n)) &&
        (!FitsI128(ExponentValue(n) - |n.fraction|) || !FitsI128(Scale(n)) || !FitsI128(Scale(n) + Significance(n) - 1)
         || PlainSize(n) > USIZE_MAX))
  }

  lemma TrimmedSizes(m: string)
    requires !AllZeros(m)
    ensures var digits := TrimLeading(m);
            var significant := TrimTrailing(digits);
            && digits != "" && significant != "" && significant != "0" && |digits| - |significant| == TrailingCount(m)
            && |significant| == |m| - LeadingCount(m) - TrailingCount(m)
  {
    hide LeadingCount, TrailingCount, TrimLeading, TrimTrailing, AllZeros;
    LeadingCounted(m);
    BehindLeading(m);
    TrailingCounted(TrimLeading(m));
  }

  lemma PartsAre(n: JsonNumber)
    requires Valid(n)
    ensures var p := PartsFrom(n.negative, n.integer, n.fraction, ExponentValue(n));
            if AllZeros(AllOf(n)) then p == Some(ZERO)
            else if !FitsI128(ExponentValue(n) - |n.fraction|) || !FitsI128(Scale(n)) then p == None
            else p.Some? && p.value.negative == n.negative && |p.value.digits| == Significance(n)
                 && p.value.scale == Scale(n) && p.value.digits != "0"
  {
    hide LeadingCount, TrailingCount, TrimLeading, TrimTrailing, AllZeros, Valid, ExponentValue, FitsI128;
    var m := AllOf(n);
    LeadingCounted(m);
    if !AllZeros(m) {
      TrimmedSizes(m);
    }
  }

  // A number has a canonical text exactly when nothing leaves its range.
  lemma CanonicalExists(n: JsonNumber)
    requires Valid(n)
    ensures CanonicalNumber(Spell(n)).None? <==> OutOfRange(n)
  {
    hide ReadParts, PartsFrom, Spell, Scale, Significance, LeadingCount, TrailingCount;
    ReadSpelled(n);
    PartsAre(n);
  }
}
