/**
 * Swim times in integer hundredths of a second: the conversion from the text
 * forms printed in result files (`time_to_seconds`, `looks_like_time`) and the
 * display form used by the relay tools (`format_time`).
 *
 * Python's `int()` and `float()` are modelled on the forms that occur in result
 * files: an optional sign, decimal digits, and for `float()` an optional
 * fractional part, all after `str.strip()`.  A decimal is rounded to hundredths,
 * half away from zero on the third decimal.
 */
module Times {
  import opened Text
  import opened Wrappers

  function DigitValue(c: char): (d: nat)
    requires IsDigit(c)
    ensures d < 10
  {
    c as int - '0' as int
  }

  function DigitChar(d: nat): (c: char)
    requires d < 10
    ensures IsDigit(c) && DigitValue(c) == d
  {
    ('0' as int + d) as char
  }

  /** The value of a string of decimal digits (most significant first). */
  function DigitsValue(s: string): nat
    requires AllDigits(s)
  {
    if s == "" then 0 else DigitsValue(s[..|s| - 1]) * 10 + DigitValue(s[|s| - 1])
  }

  /** `str(n)` for a natural number. */
  function NatToString(n: nat): (r: string)
    ensures r != "" && AllDigits(r)
  {
    if n < 10 then [DigitChar(n)] else NatToString(n / 10) + [DigitChar(n % 10)]
  }

  lemma {:induction false} NatToStringValue(n: nat)
    ensures DigitsValue(NatToString(n)) == n
  {
    if n >= 10 {
      var r := NatToString(n);
      NatToStringValue(n / 10);
      assert r[..|r| - 1] == NatToString(n / 10);
    }
  }

  /** Two digits with a leading zero, as `{:02}` prints them. */
  function Pad2(n: nat): (r: string)
    requires n < 100
    ensures |r| == 2 && AllDigits(r)
  {
    [DigitChar(n / 10), DigitChar(n % 10)]
  }

  lemma Pad2Value(n: nat)
    requires n < 100
    ensures DigitsValue(Pad2(n)) == n
  {
    var r := Pad2(n);
    assert r[..1] == [DigitChar(n / 10)];
    assert DigitsValue(r[..1]) == n / 10 by { assert r[..1][..0] == ""; }
    assert DigitsValue(r) == DigitsValue(r[..1]) * 10 + n % 10;
  }

  // -------------------------------------------------------------------------
  // int() and float()
  // -------------------------------------------------------------------------

  /** Whether a stripped numeral is negative, and the text after its sign. */
  function SplitSign(t: string): (bool, string) {
    if t != "" && (t[0] == '+' || t[0] == '-') then (t[0] == '-', t[1..])
    else (false, t)
  }

  function Signed(negative: bool, v: nat): int {
    if negative then -(v as int) else v
  }

  /** Python's `int(s)` on a decimal numeral; `None` where it raises `ValueError`. */
  function ParseInt(s: string): (r: Option<int>)
    ensures r.Some? ==> HasDigitOrSign(Strip(s))
  {
    var (negative, u) := SplitSign(Strip(s));
    if u != "" && AllDigits(u) then Some(Signed(negative, DigitsValue(u))) else None
  }

  predicate HasDigitOrSign(t: string) {
    t != "" && (IsDigit(t[0]) || t[0] == '+' || t[0] == '-')
  }

  /**
   * Hundredths from the digits after the decimal point: the first two digits,
   * plus one when the third is 5 or more.
   */
  function FracHundredths(f: string): (h: nat)
    requires AllDigits(f)
    ensures h <= 100
    ensures |f| <= 2 ==> h < 100
  {
    var d1 := if |f| >= 1 then DigitValue(f[0]) else 0;
    var d2 := if |f| >= 2 then DigitValue(f[1]) else 0;
    var up := if |f| >= 3 && DigitValue(f[2]) >= 5 then 1 else 0;
    d1 * 10 + d2 + up
  }

  /** An unsigned decimal `d+`, `d+.d*` or `.d+`, in hundredths. */
  function UnsignedDecimal(u: string): (r: Option<nat>)
    ensures r.Some? ==> u != "" && (IsDigit(u[0]) || u[0] == '.')
  {
    var i := SpanDigits(u, 0);
    if i == |u| then (if i == 0 then None else Some(DigitsValue(u) * 100))
    else if u[i] != '.' then None
    else
      var f := u[i + 1..];
      if !AllDigits(f) || (i == 0 && f == "") then None
      else Some(DigitsValue(u[..i]) * 100 + FracHundredths(f))
  }

  /** Python's `float(s)` on a decimal numeral, rounded to hundredths; `None` where it raises. */
  function ParseDecimal(s: string): (r: Option<int>)
    ensures r.Some? ==> Strip(s) != ""
  {
    var (negative, u) := SplitSign(Strip(s));
    match UnsignedDecimal(u)
    case Some(v) => Some(Signed(negative, v))
    case None => None
  }

  // -------------------------------------------------------------------------
  // time_to_seconds, looks_like_time
  // -------------------------------------------------------------------------

  /** The status words printed in place of a time. */
  predicate IsStatusWord(s: string) {
    s == "SCR" || s == "DQ" || s == "NS" || s == "DFS" || s == "NT"
  }

  /**
   * `time_to_seconds`: `[x]m:ss.cc` or `[x]ss.cc` to hundredths; `None` for the
   * empty string, a status word, or anything `int`/`float` reject.  Leading
   * exhibition marks are dropped (first every `x`, then every `X`).
   */
  function TimeToSeconds(s: string): (r: Option<int>)
    ensures s == "" || IsStatusWord(s) ==> r == None
  {
    if s == "" || IsStatusWord(s) then None
    else ClockValue(Unmarked(Strip(s)))
  }

  /** `t.lstrip('x').lstrip('X')`. */
  function Unmarked(t: string): string {
    LStripChar(LStripChar(t, 'x'), 'X')
  }

  /**
   * The conversion proper: with a colon, `int` of the text before the first colon
   * in minutes plus `float` of the text up to the next colon in seconds;
   * otherwise `float` of the whole text.
   */
  function ClockValue(t: string): (r: Option<int>)
  {
    var c := IndexOf(t, ':', 0);
    if c < |t| then MinutesSeconds(t[..c], t[c + 1..]) else ParseDecimal(t)
  }

  /** `parts[0]` in minutes plus `parts[1]` in seconds, for the text around the first colon. */
  function MinutesSeconds(before: string, after: string): (r: Option<int>)
  {
    match ParseInt(before)
    case None => None
    case Some(minutes) => AddMinutes(minutes, ParseDecimal(UpToColon(after)))
  }

  /** `minutes * 60 + seconds` in hundredths, when the seconds converted. */
  function AddMinutes(minutes: int, seconds: Option<int>): Option<int> {
    match seconds
    case None => None
    case Some(v) => Some(minutes * 6000 + v)
  }

  /** The text before the first colon, or all of it. */
  function UpToColon(s: string): string {
    var c := IndexOf(s, ':', 0);
    if c == |s| then s else s[..c]
  }

  /** `\d+\.\d+` */
  predicate DecimalShape(t: string) {
    var i := SpanDigits(t, 0);
    0 < i < |t| - 1 && t[i] == '.' && AllDigits(t[i + 1..])
  }

  /** `(\d+:)?\d+\.\d+`: the shape of a time token. */
  predicate TimeShape(t: string) {
    var i := SpanDigits(t, 0);
    if 0 < i < |t| && t[i] == ':' then DecimalShape(t[i + 1..]) else DecimalShape(t)
  }

  /** `looks_like_time`: the stripped text is `x?(\d+:)?\d+\.\d+`. */
  predicate LooksLikeTime(s: string) {
    var t := Strip(s);
    TimeShape(t) || (t != "" && t[0] == 'x' && TimeShape(t[1..]))
  }

  // -------------------------------------------------------------------------
  // Lemmas about the parsers
  // -------------------------------------------------------------------------

  lemma AllDigitsNoSpace(s: string)
    requires AllDigits(s)
    ensures NoSpace(s) && Lacks(s, ':')
  {
  }

  /** A digit string parses with `int()` to its value. */
  lemma ParseIntDigits(a: string)
    requires a != "" && AllDigits(a)
    ensures ParseInt(a) == Some(DigitsValue(a))
  {
    AllDigitsNoSpace(a);
    assert Strip(a) == a;
    assert SplitSign(a) == (false, a) by { assert IsDigit(a[0]); }
  }

  lemma DigitsDotDigits(a: string, f: string)
    requires a != "" && AllDigits(a) && AllDigits(f)
    ensures var u := a + "." + f;
      NoSpace(u) && Lacks(u, ':') && IsDigit(u[0]) && u[..|a|] == a && u[|a|] == '.' && u[|a| + 1..] == f
  {
    var u := a + "." + f;
    forall k | 0 <= k < |u| ensures !IsSpace(u[k]) && u[k] != ':' {
      if k < |a| { assert u[k] == a[k]; } else if k > |a| { assert u[k] == f[k - |a| - 1]; }
    }
    assert u[..|a|] == a;
  }

  lemma UnsignedDecimalOf(a: string, f: string)
    requires a != "" && AllDigits(a) && AllDigits(f)
    ensures UnsignedDecimal(a + "." + f) == Some(DigitsValue(a) * 100 + FracHundredths(f))
  {
    var u := a + "." + f;
    DigitsDotDigits(a, f);
    SpanDigitsAt(u, |a|);
  }

  /** `a.f` with digit strings `a` (non-empty) and `f` parses with `float()` to a plus f rounded. */
  lemma ParseDecimalOf(a: string, f: string)
    requires a != "" && AllDigits(a) && AllDigits(f)
    ensures ParseDecimal(a + "." + f) == Some(DigitsValue(a) * 100 + FracHundredths(f))
  {
    var u := a + "." + f;
    DigitsDotDigits(a, f);
    assert Strip(u) == u;
    assert SplitSign(u) == (false, u);
    UnsignedDecimalOf(a, f);
  }

  /** A token that starts with a digit or a minus sign reaches the conversion unchanged. */
  lemma PlainToken(t: string)
    requires NoSpace(t) && t != "" && (IsDigit(t[0]) || t[0] == '-')
    ensures TimeToSeconds(t) == ClockValue(t)
  {
    assert Strip(t) == t;
    assert !IsStatusWord(t);
    assert Unmarked(t) == t;
  }

  lemma ClockNoColon(t: string)
    requires Lacks(t, ':')
    ensures ClockValue(t) == ParseDecimal(t)
  {
    LacksIndexOf(t, ':');
  }

  lemma MinutesSecondsNoColon(m: string, rest: string)
    requires m != "" && AllDigits(m) && Lacks(rest, ':')
    ensures MinutesSeconds(m, rest) == AddMinutes(DigitsValue(m), ParseDecimal(rest))
  {
    LacksIndexOf(rest, ':');
    assert UpToColon(rest) == rest;
    ParseIntDigits(m);
  }

  lemma ClockMinutes(m: string, rest: string)
    requires Lacks(m, ':')
    ensures ClockValue(m + ":" + rest) == MinutesSeconds(m, rest)
  {
    var t := m + ":" + rest;
    forall k | 0 <= k < |m| ensures t[k] != ':' { assert t[k] == m[k]; }
    assert t[..|m|] == m && t[|m| + 1..] == rest;
    ColonIndex(t, |m|);
  }

  lemma ColonIndex(t: string, n: nat)
    requires n < |t| && t[n] == ':' && forall k :: 0 <= k < n ==> t[k] != ':'
    ensures IndexOf(t, ':', 0) == n
  {
  }

  lemma MinutesText(m: string, rest: string)
    requires m != "" && AllDigits(m) && NoSpace(rest)
    ensures NoSpace(m + ":" + rest) && IsDigit((m + ":" + rest)[0])
  {
    var t := m + ":" + rest;
    forall k | 0 <= k < |t| ensures !IsSpace(t[k]) {
      if k < |m| { assert t[k] == m[k]; } else if k > |m| { assert t[k] == rest[k - |m| - 1]; }
    }
  }

  /** `m:` followed by a colon-free decimal: minutes times 6000 plus the decimal. */
  lemma MinutesValue(m: string, rest: string)
    requires m != "" && AllDigits(m) && NoSpace(rest) && Lacks(rest, ':')
    ensures TimeToSeconds(m + ":" + rest) == AddMinutes(DigitsValue(m), ParseDecimal(rest))
  {
    AllDigitsNoSpace(m);
    MinutesText(m, rest);
    PlainToken(m + ":" + rest);
    ClockMinutes(m, rest);
    MinutesSecondsNoColon(m, rest);
  }

  lemma ClockText(m: string, sec: string, frac: string)
    ensures m + ":" + sec + "." + frac == m + ":" + (sec + "." + frac)
  {
  }

  lemma MinutesFormAt(m: string, sec: string, frac: string, rest: string)
    requires m != "" && AllDigits(m) && sec != "" && AllDigits(sec) && AllDigits(frac)
    requires rest == sec + "." + frac
    ensures TimeToSeconds(m + ":" + rest)
         == Some(DigitsValue(m) * 6000 + DigitsValue(sec) * 100 + FracHundredths(frac))
  {
    hide ParseDecimal, TimeToSeconds;
    DigitsDotDigits(sec, frac);
    ParseDecimalOf(sec, frac);
    MinutesValue(m, rest);
  }

  /** `m:ss.cc` gives m*6000 + ss.cc hundredths. */
  lemma MinutesForm(m: string, sec: string, frac: string)
    requires m != "" && AllDigits(m) && sec != "" && AllDigits(sec) && AllDigits(frac)
    ensures TimeToSeconds(m + ":" + sec + "." + frac)
         == Some(DigitsValue(m) * 6000 + DigitsValue(sec) * 100 + FracHundredths(frac))
  {
    ClockText(m, sec, frac);
    MinutesFormAt(m, sec, frac, sec + "." + frac);
  }

  /** Bare `ss.cc` gives its own value. */
  lemma SecondsForm(sec: string, frac: string)
    requires sec != "" && AllDigits(sec) && AllDigits(frac)
    ensures TimeToSeconds(sec + "." + frac) == Some(DigitsValue(sec) * 100 + FracHundredths(frac))
  {
    var t := sec + "." + frac;
    DigitsDotDigits(sec, frac);
    PlainToken(t);
    ClockNoColon(t);
    ParseDecimalOf(sec, frac);
  }

  /** A `DecimalShape` token splits into digits, a point and digits. */
  lemma DecimalShapeSplit(t: string) returns (a: string, f: string)
    requires DecimalShape(t)
    ensures a != "" && AllDigits(a) && AllDigits(f) && t == a + "." + f
  {
    var i := SpanDigits(t, 0);
    a, f := t[..i], t[i + 1..];
    assert t == a + "." + f;
  }

  lemma SplitAt(t: string, i: nat)
    requires i < |t|
    ensures t == t[..i] + [t[i]] + t[i + 1..]
  {
  }

  /** A `TimeShape` token with a colon splits into minutes, seconds and fraction digits. */
  lemma ColonShapeSplit(t: string) returns (m: string, a: string, f: string)
    requires var i := SpanDigits(t, 0); 0 < i < |t| && t[i] == ':' && DecimalShape(t[i + 1..])
    ensures m != "" && AllDigits(m) && a != "" && AllDigits(a) && AllDigits(f)
    ensures t == m + ":" + a + "." + f
  {
    var i := SpanDigits(t, 0);
    m := t[..i];
    a, f := DecimalShapeSplit(t[i + 1..]);
    SplitAt(t, i);
  }

  lemma ColonShapeParses(m: string, a: string, f: string)
    requires m != "" && AllDigits(m) && a != "" && AllDigits(a) && AllDigits(f)
    ensures NoSpace(m + ":" + a + "." + f) && TimeToSeconds(m + ":" + a + "." + f).Some?
  {
    MinutesForm(m, a, f);
    DigitsDotDigits(a, f);
    MinutesText(m, a + "." + f);
    ClockText(m, a, f);
  }

  lemma TimeShapeParses(t: string)
    requires TimeShape(t)
    ensures NoSpace(t) && TimeToSeconds(t).Some?
  {
    var i := SpanDigits(t, 0);
    if 0 < i < |t| && t[i] == ':' {
      var m, a, f := ColonShapeSplit(t);
      ColonShapeParses(m, a, f);
    } else {
      var a, f := DecimalShapeSplit(t);
      SecondsForm(a, f);
      DigitsDotDigits(a, f);
    }
  }

  lemma StripTwice(s: string)
    ensures Strip(Strip(s)) == Strip(s)
  {
    var t := Strip(s);
    if t != "" {
      assert SpanSpaces(t, 0) == 0;
      assert BackSpanSpaces(t, |t|, 0) == |t|;
    }
  }

  lemma RefusedUnmarked(t: string)
    requires t == "" || IsStatusWord(t)
    ensures Unmarked(t) == t && Lacks(t, ':')
  {
  }

  lemma RefusedNotDecimal(t: string)
    requires t == "" || IsStatusWord(t)
    ensures ParseDecimal(t) == None
  {
    assert Strip(t) == t;
    assert SplitSign(t) == (false, t);
    assert t == "" || SpanDigits(t, 0) == 0;
  }

  /** The texts `time_to_seconds` refuses outright also fail the conversion proper. */
  lemma RefusedTexts(t: string)
    requires t == "" || IsStatusWord(t)
    ensures ClockValue(Unmarked(t)) == None
  {
    hide *;
    RefusedUnmarked(t);
    ClockNoColon(t);
    RefusedNotDecimal(t);
  }

  /** Surrounding whitespace does not matter. */
  lemma StripIgnored(s: string)
    ensures TimeToSeconds(s) == TimeToSeconds(Strip(s))
  {
    var t := Strip(s);
    StripTwice(s);
    if s == "" || IsStatusWord(s) {
      assert t == s;
    } else if t == "" || IsStatusWord(t) {
      RefusedTexts(t);
    }
  }

  lemma MarkedToken(s: string)
    requires NoSpace(s)
    ensures NoSpace("x" + s) && ("x" + s)[1..] == s && ("x" + s)[0] == 'x'
  {
    var xs := "x" + s;
    forall k | 0 <= k < |xs| ensures !IsSpace(xs[k]) { if k > 0 { assert xs[k] == s[k - 1]; } }
  }

  /** A leading `x` (exhibition mark) on a token does not change its value. */
  lemma ExhibitionMarkIgnored(s: string)
    requires NoSpace(s)
    ensures TimeToSeconds("x" + s) == TimeToSeconds(s)
  {
    var xs := "x" + s;
    MarkedToken(s);
    assert Strip(xs) == xs;
    assert !IsStatusWord(xs);
    assert Unmarked(xs) == Unmarked(s);
    if s == "" || IsStatusWord(s) {
      RefusedTexts(s);
    } else {
      assert Strip(s) == s;
    }
  }

  lemma MarkedSplit(t: string)
    requires t != "" && t[0] == 'x'
    ensures t == "x" + t[1..]
  {
  }

  /** Every text `looks_like_time` accepts is converted by `time_to_seconds`. */
  lemma LooksLikeTimeConverts(s: string)
    requires LooksLikeTime(s)
    ensures TimeToSeconds(s).Some?
  {
    var t := Strip(s);
    StripIgnored(s);
    if TimeShape(t) {
      TimeShapeParses(t);
    } else {
      TimeShapeParses(t[1..]);
      MarkedSplit(t);
      ExhibitionMarkIgnored(t[1..]);
    }
  }

  /** `-ss.cc` gives the negated value. */
  lemma NegativeForm(sec: string, frac: string)
    requires sec != "" && AllDigits(sec) && AllDigits(frac)
    ensures TimeToSeconds("-" + (sec + "." + frac)) == Some(-(DigitsValue(sec) * 100 + FracHundredths(frac)))
  {
    var u := sec + "." + frac;
    var t := "-" + u;
    DigitsDotDigits(sec, frac);
    NegativeText(u);
    PlainToken(t);
    ClockNoColon(t);
    assert Strip(t) == t;
    assert SplitSign(t) == (true, u);
    UnsignedDecimalOf(sec, frac);
  }

  lemma NegativeText(u: string)
    requires NoSpace(u) && Lacks(u, ':')
    ensures var t := "-" + u; NoSpace(t) && Lacks(t, ':') && t[0] == '-' && t[1..] == u
  {
    var t := "-" + u;
    forall k | 0 <= k < |t| ensures !IsSpace(t[k]) && t[k] != ':' { if k > 0 { assert t[k] == u[k - 1]; } }
  }

  // -------------------------------------------------------------------------
  // format_time
  // -------------------------------------------------------------------------

  /** `f"{h/100:.2f}"` for non-negative hundredths. */
  function Fixed2(h: nat): (r: string)
    ensures |r| >= 4
  {
    NatToString(h / 100) + "." + Pad2(h % 100)
  }

  /**
   * `format_time`: "" for a missing time, `M:SS.cc` from one minute on,
   * otherwise `S.cc` (with a minus sign for negative values).
   */
  function FormatTime(t: Option<int>): (r: string)
    ensures t == None <==> r == ""
  {
    match t
    case None => ""
    case Some(h) =>
      if h >= 6000 then NatToString(h / 6000) + ":" + Pad2((h % 6000) / 100) + "." + Pad2(h % 100)
      else if h >= 0 then Fixed2(h)
      else "-" + Fixed2(-h)
  }

  lemma Pad2Frac(c: nat)
    requires c < 100
    ensures FracHundredths(Pad2(c)) == c
  {
  }

  /**
   * The three printed layouts, with `Fixed2` unfolded. This is a statement of
   * the format itself, not a property of it; what the format guarantees is
   * `FormatTimeRoundTrip`, which this lemma feeds.
   */
  lemma FormatText(h: int)
    ensures h >= 6000 ==>
      FormatTime(Some(h)) == NatToString(h / 6000) + ":" + Pad2((h % 6000) / 100) + "." + Pad2(h % 100)
    ensures 0 <= h < 6000 ==> FormatTime(Some(h)) == NatToString(h / 100) + "." + Pad2(h % 100)
    ensures h < 0 ==> FormatTime(Some(h)) == "-" + (NatToString(-h / 100) + "." + Pad2(-h % 100))
  {
  }

  lemma MinutesTextValue(h: int, t: string)
    requires h >= 6000 && t == NatToString(h / 6000) + ":" + Pad2((h % 6000) / 100) + "." + Pad2(h % 100)
    ensures TimeToSeconds(t) == Some(h)
  {
    hide TimeToSeconds, DigitsValue, FracHundredths, NatToString, Pad2;
    var m, s, c := h / 6000, (h % 6000) / 100, h % 100;
    assert (h % 6000) % 100 == c;
    NatToStringValue(m);
    Pad2Value(s);
    Pad2Frac(c);
    MinutesForm(NatToString(m), Pad2(s), Pad2(c));
  }

  lemma SecondsTextValue(h: int, t: string)
    requires 0 <= h < 6000 && t == NatToString(h / 100) + "." + Pad2(h % 100)
    ensures TimeToSeconds(t) == Some(h)
  {
    hide TimeToSeconds, DigitsValue, FracHundredths, NatToString, Pad2;
    NatToStringValue(h / 100);
    Pad2Frac(h % 100);
    SecondsForm(NatToString(h / 100), Pad2(h % 100));
  }

  lemma NegativeTextValue(h: int, t: string)
    requires h < 0 && t == "-" + (NatToString(-h / 100) + "." + Pad2(-h % 100))
    ensures TimeToSeconds(t) == Some(h)
  {
    hide TimeToSeconds, DigitsValue, FracHundredths, NatToString, Pad2;
    var a := -h;
    NatToStringValue(a / 100);
    Pad2Frac(a % 100);
    NegativeForm(NatToString(a / 100), Pad2(a % 100));
  }

  /** The display form is read back by `time_to_seconds` to the same value. */
  lemma FormatTimeRoundTrip(h: int)
    ensures TimeToSeconds(FormatTime(Some(h))) == Some(h)
  {
    FormatText(h);
    var t := FormatTime(Some(h));
    if h >= 6000 {
      MinutesTextValue(h, t);
    } else if h >= 0 {
      SecondsTextValue(h, t);
    } else {
      NegativeTextValue(h, t);
    }
  }
}
