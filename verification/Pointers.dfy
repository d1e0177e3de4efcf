/**
 Segments of JSON pointers (sections 3 and 4 of RFC 6901): escaping by two replacements, decoding by one pass.
 */
module Pointers {
  import opened Grammars

  function Replace(s: string, c: char, text: string): string {
    if s == "" then "" else (if s[0] == c then text else [s[0]]) + Replace(s[1..], c, text)
  }

  // Tildes first, then slashes.
  function EscapeSegment(segment: string): string {
    Replace(Replace(segment, '~', "~0"), '/', "~1")
  }

  // What one escape stands for.
  function Unescaped(c: char): Option<char> {
    if c == '0' then Some('~') else if c == '1' then Some('/') else None
  }

  // The segment a text stands for; None when a tilde is not followed by a zero or a one.
  function Decoded(value: string): Option<string>
    decreases |value|
  {
    if value == "" then Some("")
    else if value[0] != '~' then
      var rest := Decoded(value[1..]);
      if rest.None? then None else Some([value[0]] + rest.value)
    else if |value| == 1 || Unescaped(value[1]).None? then None
    else
      var rest := Decoded(value[2..]);
      if rest.None? then None else Some([Unescaped(value[1]).value] + rest.value)
  }

  lemma {:induction false} ReplaceJoin(s: string, t: string, c: char, text: string)
    ensures Replace(s + t, c, text) == Replace(s, c, text) + Replace(t, c, text)
    decreases |s|
  {
    if s == "" {
      assert s + t == t;
    } else {
      assert (s + t)[1..] == s[1..] + t;
      ReplaceJoin(s[1..], t, c, text);
    }
  }

  // One pass does what the two replacements do.
  lemma EscapeStep(segment: string)
    requires segment != ""
    ensures EscapeSegment(segment) ==
            (if segment[0] == '~' then "~0" else if segment[0] == '/' then "~1" else [segment[0]])
            + EscapeSegment(segment[1..])
  {
    var first := if segment[0] == '~' then "~0" else [segment[0]];
    ReplaceJoin(first, Replace(segment[1..], '~', "~0"), '/', "~1");
    assert first[1..] == if segment[0] == '~' then "0" else "";
    assert "0"[1..] == "" && Replace("0", '/', "~1") == "0";
  }

  // Decoding undoes escaping.
  lemma {:induction false} DecodeEscape(segment: string)
    ensures Decoded(EscapeSegment(segment)) == Some(segment)
    decreases |segment|
  {
    if segment != "" {
      EscapeStep(segment);
      DecodeEscape(segment[1..]);
      var escaped := EscapeSegment(segment);
      if segment[0] == '~' || segment[0] == '/' {
        assert escaped[2..] == EscapeSegment(segment[1..]);
      } else {
        assert escaped[1..] == EscapeSegment(segment[1..]);
      }
      assert segment == [segment[0]] + segment[1..];
    }
  }

  // And escaping undoes decoding, for texts that could be a segment.
  lemma {:induction false} EscapeDecoded(value: string)
    requires Decoded(value).Some? && '/' !in value
    ensures EscapeSegment(Decoded(value).value) == value
    decreases |value|
  {
    if value != "" {
      var segment := Decoded(value).value;
      var taken := if value[0] != '~' then 1 else 2;
      assert forall c <- value[taken..] :: c in value;
      EscapeDecoded(value[taken..]);
      EscapeStep(segment);
      assert segment[1..] == Decoded(value[taken..]).value;
      assert value == value[..taken] + value[taken..];
    }
  }

  // The rest decoded behind what has been decoded.
  function Behind(decoded: string, rest: Option<string>): Option<string> {
    if rest.None? then None else Some(decoded + rest.value)
  }

  lemma BehindStep(decoded: string, c: char, rest: Option<string>)
    ensures Behind(decoded, Behind([c], rest)) == Behind(decoded + [c], rest)
    ensures Behind("", rest) == rest && Behind(decoded, Some("")) == Some(decoded)
  {
    assert decoded + "" == decoded && (rest.Some? ==> "" + rest.value == rest.value);
    if rest.Some? {
      assert decoded + ([c] + rest.value) == decoded + [c] + rest.value;
    }
  }

  // The decoding loop.
  method DecodeSegment(value: string) returns (r: Option<string>)
    ensures r == Decoded(value)
  {
    var decoded, i := "", 0;
    BehindStep(decoded, '~', Decoded(value));
    assert value[0..] == value;
    while i < |value|
      invariant i <= |value| && Decoded(value) == Behind(decoded, Decoded(value[i..]))
    {
      var c := value[i];
      assert value[i..][1..] == value[i + 1..];
      if c != '~' {
        BehindStep(decoded, c, Decoded(value[i + 1..]));
        decoded, i := decoded + [c], i + 1;
      } else if i + 1 == |value| || Unescaped(value[i + 1]).None? {
        return None;
      } else {
        var plain := Unescaped(value[i + 1]).value;
        assert value[i..][2..] == value[i + 2..];
        BehindStep(decoded, plain, Decoded(value[i + 2..]));
        decoded, i := decoded + [plain], i + 2;
      }
    }
    assert value[i..] == "";
    BehindStep(decoded, '~', None);
    return Some(decoded);
  }
}
