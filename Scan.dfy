/**
 * Deterministic scanning steps over the unread rest of a line. Each step either
 * fails or returns what it recognised together with the rest after it, which is
 * how the fixed-shape regular expressions of the parser are read here: every
 * repeated class in them is followed by a character outside that class, so the
 * greedy run is the only run that can lead to a match.
 */
module Scan {
  import opened Wrappers
  import opened Text

  /** `\s+`: a non-empty run of whitespace. */
  function Gap(s: string): (r: Option<string>)
    ensures r.Some? ==> |r.value| < |s|
    ensures r.Some? ==> r.value == "" || !IsSpace(r.value[0])
    ensures r.None? <==> s == "" || !IsSpace(s[0])
  {
    var k := SpanSpaces(s, 0);
    if k > 0 then Some(s[k..]) else None
  }

  /** `\s*`: a possibly empty run of whitespace. */
  function Spaces(s: string): (r: string)
    ensures |r| <= |s|
    ensures r == "" || !IsSpace(r[0])
  {
    var k := SpanSpaces(s, 0);
    if k == 0 then s else s[k..]
  }

  /** `(\d+)`: a non-empty run of digits and the rest after it. */
  function Number(s: string): (r: Option<(string, string)>)
    ensures r.Some? ==> r.value.0 != "" && AllDigits(r.value.0) && r.value.0 + r.value.1 == s
    ensures r.Some? ==> r.value.1 == "" || !IsDigit(r.value.1[0])
    ensures r.None? <==> s == "" || !IsDigit(s[0])
  {
    var j := SpanDigits(s, 0);
    if j > 0 then Some((s[..j], s[j..])) else None
  }

  /** A literal word. */
  function Lit(s: string, p: string): (r: Option<string>)
    requires p != ""
    ensures r.Some? <==> StartsWith(s, p)
    ensures r.Some? ==> p + r.value == s
  {
    if StartsWith(s, p) then Some(s[|p|..]) else None
  }

  lemma GapOf(b: string)
    requires b == "" || !IsSpace(b[0])
    ensures Gap(" " + b) == Some(b)
  {
    var s := " " + b;
    assert SpanSpaces(s, 1) == 1;
    assert s[1..] == b;
  }

  lemma SpacesOf(b: string)
    requires b == "" || !IsSpace(b[0])
    ensures Spaces(" " + b) == b
  {
    var s := " " + b;
    assert SpanSpaces(s, 1) == 1;
    assert s[1..] == b;
  }

  lemma NumberOf(a: string, b: string)
    requires a != "" && AllDigits(a)
    requires b == "" || !IsDigit(b[0])
    ensures Number(a + b) == Some((a, b))
  {
    var s := a + b;
    assert s[..|a|] == a;
    SpanDigitsAt(s, |a|);
    assert s[|a|..] == b;
  }

  lemma LitOf(p: string, b: string)
    requires p != ""
    ensures Lit(p + b, p) == Some(b)
  {
    assert (p + b)[..|p|] == p;
    assert (p + b)[|p|..] == b;
  }
}
