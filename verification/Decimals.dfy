/**
 Decimal digit strings, powers of ten, and the two trims: what canonical numbers are computed from.
 */
module Decimals {

  predicate IsDigit(c: char) {
    '0' <= c <= '9'
  }

  predicate AllDigits(s: string) {
    forall c <- s :: IsDigit(c)
  }

  predicate AllZeros(s: string) {
    forall i :: 0 <= i < |s| ==> s[i] == '0'
  }

  function Digit(c: char): nat
    requires IsDigit(c)
  {
    (c as int) - ('0' as int)
  }

  function Pow10(n: nat): (r: nat)
    ensures r > 0
  {
    if n == 0 then 1 else 10 * Pow10(n - 1)
  }

  lemma {:induction false} Pow10Add(m: nat, n: nat)
    ensures Pow10(m + n) == Pow10(m) * Pow10(n)
    decreases m
  {
    if m > 0 {
      Pow10Add(m - 1, n);
      Times(10, Pow10(m - 1), Pow10(n));
      assert m + n - 1 == (m - 1) + n;
    }
  }

  lemma Times(a: nat, b: nat, c: nat)
    ensures a * (b * c) == (a * b) * c
  {
  }

  function DigitsValue(s: string): nat
    requires AllDigits(s)
  {
    if s == "" then 0
    else
      assert forall c <- s[..|s| - 1] :: c in s;
      10 * DigitsValue(s[..|s| - 1]) + Digit(s[|s| - 1])
  }

  lemma AllDigitsParts(s: string, k: nat)
    requires AllDigits(s) && k <= |s|
    ensures AllDigits(s[..k]) && AllDigits(s[k..])
  {
    assert forall c <- s[..k] :: c in s;
    assert forall c <- s[k..] :: c in s;
  }

  lemma AllDigitsJoin(s: string, t: string)
    requires AllDigits(s) && AllDigits(t)
    ensures AllDigits(s + t)
  {
  }

  lemma {:induction false} ValueJoin(s: string, t: string)
    requires AllDigits(s) && AllDigits(t)
    ensures AllDigits(s + t) && DigitsValue(s + t) == DigitsValue(s) * Pow10(|t|) + DigitsValue(t)
    decreases |t|
  {
    AllDigitsJoin(s, t);
    if t == "" {
      assert s + t == s;
    } else {
      var front := t[..|t| - 1];
      AllDigitsParts(t, |t| - 1);
      ValueJoin(s, front);
      assert (s + t)[..|s + t| - 1] == s + front;
      JoinStep(DigitsValue(s), Pow10(|front|), DigitsValue(front), Digit(t[|t| - 1]));
    }
  }

  lemma JoinStep(a: nat, p: nat, b: nat, d: nat)
    ensures 10 * (a * p + b) + d == a * (10 * p) + (10 * b + d)
  {
  }

  function Zeros(n: nat): (r: string)
    ensures |r| == n && AllDigits(r) && AllZeros(r)
  {
    seq(n, _ => '0')
  }

  lemma {:induction false} ZerosValue(s: string)
    requires AllZeros(s)
    ensures AllDigits(s) && DigitsValue(s) == 0
    decreases |s|
  {
    if s != "" {
      ZerosValue(s[..|s| - 1]);
      assert s == s[..|s| - 1] + [s[|s| - 1]];
    }
  }

  // ---------- Trims ----------

  function TrimLeading(s: string): (r: string)
    ensures r == "" || r[0] != '0'
    ensures |r| <= |s| && r == s[|s| - |r|..]
  {
    if s != "" && s[0] == '0' then TrimLeading(s[1..]) else s
  }

  function TrimTrailing(s: string): (r: string)
    ensures r == "" || r[|r| - 1] != '0'
    ensures |r| <= |s| && r == s[..|r|]
    ensures s != "" && s[0] != '0' ==> r != ""
  {
    if s != "" && s[|s| - 1] == '0' then TrimTrailing(s[..|s| - 1]) else s
  }

  lemma {:induction false} LeadingZeros(s: string)
    ensures AllZeros(s[..|s| - |TrimLeading(s)|])
    decreases |s|
  {
    if s != "" && s[0] == '0' {
      LeadingZeros(s[1..]);
      var k := |s| - |TrimLeading(s)|;
      assert s[..k] == [s[0]] + s[1..][..k - 1];
    }
  }

  lemma {:induction false} TrailingZeros(s: string)
    ensures AllZeros(s[|TrimTrailing(s)|..])
    decreases |s|
  {
    if s != "" && s[|s| - 1] == '0' {
      TrailingZeros(s[..|s| - 1]);
      var k := |TrimTrailing(s)|;
      assert s[k..] == s[..|s| - 1][k..] + [s[|s| - 1]];
    }
  }

  lemma {:induction false} TrimLeadingZeros(z: string, s: string)
    requires AllZeros(z) && (s == "" || s[0] != '0')
    ensures TrimLeading(z + s) == s
    decreases |z|
  {
    if z == "" {
      assert z + s == s;
    } else {
      assert (z + s)[0] == z[0] && (z + s)[1..] == z[1..] + s;
      TrimLeadingZeros(z[1..], s);
    }
  }

  lemma {:induction false} TrimTrailingZeros(s: string, z: string)
    requires AllZeros(z) && (s == "" || s[|s| - 1] != '0')
    ensures TrimTrailing(s + z) == s
    decreases |z|
  {
    if z == "" {
      assert s + z == s;
    } else {
      assert (s + z)[|s + z| - 1] == z[|z| - 1] && (s + z)[..|s + z| - 1] == s + z[..|z| - 1];
      TrimTrailingZeros(s, z[..|z| - 1]);
    }
  }

  // Without a leading zero the digits are determined by the value.
  lemma {:induction false} DigitsUnique(s: string, t: string)
    requires AllDigits(s) && AllDigits(t) && (s == "" || s[0] != '0') && (t == "" || t[0] != '0')
    requires DigitsValue(s) == DigitsValue(t)
    ensures s == t
    decreases |s|
  {
    if s == "" || t == "" {
      var u := if s == "" then t else s;
      if u != "" {
        PositiveValue(u);
      }
    } else {
      var a, b := s[..|s| - 1], t[..|t| - 1];
      AllDigitsParts(s, |s| - 1);
      AllDigitsParts(t, |t| - 1);
      LastDigits(DigitsValue(a), Digit(s[|s| - 1]), DigitsValue(b), Digit(t[|t| - 1]));
      DigitsUnique(a, b);
      assert s == a + [s[|s| - 1]] && t == b + [t[|t| - 1]];
    }
  }

  lemma LastDigits(a: nat, c: nat, b: nat, d: nat)
    requires 10 * a + c == 10 * b + d && c < 10 && d < 10
    ensures a == b && c == d
  {
  }

  lemma {:induction false} PositiveValue(s: string)
    requires AllDigits(s) && s != "" && s[0] != '0'
    ensures DigitsValue(s) > 0
    decreases |s|
  {
    if |s| > 1 {
      AllDigitsParts(s, |s| - 1);
      PositiveValue(s[..|s| - 1]);
    } else {
      assert s[0] in s;
    }
  }

  // A last digit other than zero: the value is no multiple of ten.
  lemma NoMultiple(s: string)
    requires AllDigits(s) && s != "" && s[|s| - 1] != '0'
    ensures DigitsValue(s) % 10 != 0
  {
    AllDigitsParts(s, |s| - 1);
    assert IsDigit(s[|s| - 1]);
  }

  // ---------- Writing a number ----------

  function DigitChar(d: nat): (c: char)
    requires d < 10
    ensures IsDigit(c) && Digit(c) == d
  {
    '0' + (d as char)
  }

  function Written(n: nat): (s: string)
    ensures AllDigits(s) && s != "" && DigitsValue(s) == n
    ensures n > 0 ==> s[0] != '0'
  {
    if n < 10 then
      assert DigitsValue([DigitChar(n)]) == 10 * DigitsValue("") + n;
      [DigitChar(n)]
    else
      var front := Written(n / 10);
      var s := front + [DigitChar(n % 10)];
      assert s[..|s| - 1] == front;
      s
  }

  // ---------- Powers of ten as reals ----------

  ghost function Power(e: int): (r: real)
    ensures r > 0.0
    decreases if e < 0 then -e else e
  {
    if e == 0 then 1.0 else if e > 0 then 10.0 * Power(e - 1) else Power(e + 1) / 10.0
  }

  lemma PowerStep(e: int)
    ensures Power(e + 1) == 10.0 * Power(e)
  {
  }

  lemma {:induction false} PowerAdd(e: int, n: nat)
    ensures Power(e + n) == Power(e) * (Pow10(n) as real)
    decreases n
  {
    hide Power;
    if n > 0 {
      PowerAdd(e, n - 1);
      PowerStep(e + n - 1);
      TenInside(Power(e), Pow10(n - 1));
    }
  }

  lemma TenInside(a: real, b: nat)
    ensures 10.0 * (a * (b as real)) == a * ((10 * b) as real)
  {
    assert (10 * b) as real == 10.0 * (b as real);
  }
}
