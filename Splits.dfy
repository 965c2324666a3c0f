/**
 * Split lines: the reaction-time prefix, the tokenizer that tells bare values
 * from parenthesised ones, the choice of which values are splits
 * (`parse_splits`), and the test that decides a line holds splits
 * (`is_split_line`).
 */
module Splits {
  import opened Wrappers
  import opened Text
  import opened Scan
  import opened Times

  /** The plausible range of one split: 10 s to 1200 s, in hundredths. */
  predicate InSplitRange(h: int) { 1000 <= h <= 120000 }

  /** A split value: a time that converts and lies in range. */
  predicate IsSplitValue(v: Option<int>) { v.Some? && InSplitRange(v.value) }

  // -------------------------------------------------------------------------
  // The reaction prefix `^r:([+\-]?\d+\.?\d*)\s*`
  // -------------------------------------------------------------------------

  /**
   * The reaction time (from `float`) and the rest of the line after the prefix
   * and the blanks that follow it; `None` when the line has no prefix.
   */
  function ReactionPrefix(t: string): (r: Option<(Option<int>, string)>)
    ensures r.Some? ==> |r.value.1| < |t|
  {
    if !StartsWith(t, "r:") then None
    else
      var u := t[2..];
      var sign := if u != "" && (u[0] == '+' || u[0] == '-') then 1 else 0;
      var j := SpanDigits(u, sign);
      if j == sign then None
      else
        var k := if j < |u| && u[j] == '.' then SpanDigits(u, j + 1) else j;
        Some((ParseDecimal(u[..k]), Spaces(u[k..])))
  }

  // -------------------------------------------------------------------------
  // Tokens
  // -------------------------------------------------------------------------

  datatype Token = Bare(text: string) | Paren(text: string)

  /** The end of a bare token: the first whitespace or `(` from `i`. */
  function BareEnd(s: string, i: nat): (j: nat)
    requires i <= |s|
    ensures i <= j <= |s|
    ensures forall k :: i <= k < j ==> !IsSpace(s[k]) && s[k] != '('
    ensures j == |s| || IsSpace(s[j]) || s[j] == '('
    decreases |s| - i
  {
    if i < |s| && !IsSpace(s[i]) && s[i] != '(' then BareEnd(s, i + 1) else i
  }

  /**
   * The token that starts at the non-blank position `p` and the position after
   * it: `(` opens a parenthesised token that runs to the next `)`, and is `None`
   * when no `)` follows; any other character starts a bare token that runs to
   * the next blank or `(`.
   */
  function NextToken(s: string, p: nat): (r: Option<(Token, nat)>)
    requires p < |s| && !IsSpace(s[p])
    ensures r.Some? ==> p < r.value.1 <= |s|
  {
    if s[p] == '(' then
      var e := IndexOf(s, ')', p + 1);
      if e == |s| then None else Some((Paren(s[p + 1..e]), e + 1))
    else
      var e := BareEnd(s, p);
      Some((Bare(s[p..e]), e))
  }

  /** The tokens of `s` from `pos`; blanks between tokens are skipped and an unclosed `(` ends the scan. */
  function TokensFrom(s: string, pos: nat): (ts: seq<Token>)
    requires pos <= |s|
    decreases |s| - pos
  {
    var p := SpanSpaces(s, pos);
    if p == |s| then []
    else
      match NextToken(s, p)
      case None => []
      case Some((t, q)) => [t] + TokensFrom(s, q)
  }

  lemma NextParen(s: string, p: nat, e: nat)
    requires p < |s| && s[p] == '(' && e == IndexOf(s, ')', p + 1)
    ensures !IsSpace(s[p])
    ensures NextToken(s, p) == if e == |s| then None else Some((Paren(s[p + 1..e]), e + 1))
  {
  }

  lemma NextBare(s: string, p: nat, e: nat)
    requires p < |s| && !IsSpace(s[p]) && s[p] != '(' && e == BareEnd(s, p)
    ensures NextToken(s, p) == Some((Bare(s[p..e]), e))
  {
  }

  lemma TokensEnd(s: string, pos: nat)
    requires pos <= |s| && SpanSpaces(s, pos) == |s|
    ensures TokensFrom(s, pos) == []
  {
  }

  lemma TokensStop(s: string, pos: nat, p: nat)
    requires pos <= |s| && p == SpanSpaces(s, pos) && p < |s| && !IsSpace(s[p]) && NextToken(s, p) == None
    ensures TokensFrom(s, pos) == []
  {
  }

  lemma TokensStep(s: string, pos: nat, p: nat, t: Token, q: nat)
    requires pos <= |s| && p == SpanSpaces(s, pos) && p < |s| && !IsSpace(s[p]) && NextToken(s, p) == Some((t, q))
    ensures TokensFrom(s, pos) == [t] + TokensFrom(s, q)
  {
  }

  /** The blank-skipping loop of the tokenizer. */
  method SkipBlanks(s: string, pos: nat) returns (p: nat)
    requires pos <= |s|
    ensures p == SpanSpaces(s, pos)
  {
    p := pos;
    while p < |s| && IsSpace(s[p])
      invariant pos <= p <= |s|
      invariant SpanSpaces(s, p) == SpanSpaces(s, pos)
    {
      p := p + 1;
    }
  }

  /** The loop that finds the end of a bare token. */
  method ScanBare(s: string, p: nat) returns (e: nat)
    requires p <= |s|
    ensures e == BareEnd(s, p)
  {
    e := p;
    while e < |s| && !IsSpace(s[e]) && s[e] != '('
      invariant p <= e <= |s|
      invariant BareEnd(s, e) == BareEnd(s, p)
    {
      e := e + 1;
    }
  }

  /** The tokenizing loop of `parse_splits`. */
  method Tokenize(s: string) returns (tokens: seq<Token>)
    ensures tokens == TokensFrom(s, 0)
  {
    hide TokensFrom, NextToken;
    tokens := [];
    var pos := 0;
    while pos < |s|
      invariant pos <= |s|
      invariant tokens + TokensFrom(s, pos) == TokensFrom(s, 0)
      decreases |s| - pos
    {
      var p := SkipBlanks(s, pos);
      if p >= |s| {
        TokensEnd(s, pos);
        pos := p;
        break;
      }
      var token: Token;
      var next: nat;
      if s[p] == '(' {
        var e := IndexOf(s, ')', p + 1);
        NextParen(s, p, e);
        if e == |s| {
          TokensStop(s, pos, p);
          break;
        }
        token, next := Paren(s[p + 1..e]), e + 1;
      } else {
        var e := ScanBare(s, p);
        NextBare(s, p, e);
        token, next := Bare(s[p..e]), e;
      }
      TokensStep(s, pos, p, token, next);
      tokens := tokens + [token];
      pos := next;
    }
    if pos == |s| {
      TokensEnd(s, pos);
    }
  }

  lemma ParenShape(s: string, p: nat)
    requires p < |s| && s[p] == '(' && IndexOf(s, ')', p + 1) < |s|
    ensures Lacks(s[p + 1..IndexOf(s, ')', p + 1)], ')')
  {
    var t := s[p + 1..IndexOf(s, ')', p + 1)];
    assert forall k :: 0 <= k < |t| ==> t[k] == s[p + 1 + k];
  }

  lemma BareShape(s: string, p: nat)
    requires p < |s| && !IsSpace(s[p]) && s[p] != '('
    ensures var t := s[p..BareEnd(s, p)]; t != "" && NoSpace(t) && Lacks(t, '(')
  {
    var t := s[p..BareEnd(s, p)];
    assert forall k :: 0 <= k < |t| ==> t[k] == s[p + k];
  }

  /** Bare tokens are non-empty words without `(`; parenthesised ones hold no `)`. */
  predicate WellFormedToken(t: Token) {
    (t.Bare? ==> t.text != "" && NoSpace(t.text) && Lacks(t.text, '('))
    && (t.Paren? ==> Lacks(t.text, ')'))
  }

  /** Every token the tokenizer produces is well formed. */
  lemma {:induction false} TokensShape(s: string, pos: nat)
    requires pos <= |s|
    ensures forall t <- TokensFrom(s, pos) :: WellFormedToken(t)
    decreases |s| - pos
  {
    hide *;
    var t, q, some := FirstToken(s, pos);
    if some {
      TokensShape(s, q);
    }
  }

  /** The first token after `pos`, if the tokenizer finds one, and where it stops. */
  lemma FirstToken(s: string, pos: nat) returns (t: Token, q: nat, some: bool)
    requires pos <= |s|
    ensures !some ==> TokensFrom(s, pos) == []
    ensures some ==> pos < q <= |s| && WellFormedToken(t) && TokensFrom(s, pos) == [t] + TokensFrom(s, q)
  {
    hide TokensFrom, NextToken;
    var p := SpanSpaces(s, pos);
    if p == |s| {
      TokensEnd(s, pos);
      return Bare(""), 0, false;
    }
    if s[p] == '(' {
      var e := IndexOf(s, ')', p + 1);
      NextParen(s, p, e);
      if e == |s| {
        TokensStop(s, pos, p);
        return Bare(""), 0, false;
      }
      ParenShape(s, p);
      TokensStep(s, pos, p, Paren(s[p + 1..e]), e + 1);
      return Paren(s[p + 1..e]), e + 1, true;
    }
    var e := BareEnd(s, p);
    NextBare(s, p, e);
    BareShape(s, p);
    TokensStep(s, pos, p, Bare(s[p..e]), e);
    return Bare(s[p..e]), e, true;
  }

  // -------------------------------------------------------------------------
  // Choosing the splits
  // -------------------------------------------------------------------------

  predicate HasParens(tokens: seq<Token>) {
    exists i :: 0 <= i < |tokens| && tokens[i].Paren?
  }

  /**
   * Whether token `i` gives a split: its value is in range and, when the line
   * has parenthesised tokens, it is one of them or it is a bare value whose
   * next token is not parenthesised (a bare value before a paren is cumulative).
   */
  predicate Kept(tokens: seq<Token>, hasParens: bool, i: nat)
    requires i < |tokens|
  {
    IsSplitValue(TimeToSeconds(tokens[i].text)) &&
    (!hasParens || tokens[i].Paren? || !(i + 1 < |tokens| && tokens[i + 1].Paren?))
  }

  /** The splits chosen among the first `n` tokens, in order. */
  function Selected(tokens: seq<Token>, hasParens: bool, n: nat): (r: seq<int>)
    requires n <= |tokens|
    ensures |r| <= n
    ensures forall x <- r :: InSplitRange(x)
  {
    if n == 0 then []
    else
      Selected(tokens, hasParens, n - 1) +
      (if Kept(tokens, hasParens, n - 1) then [TimeToSeconds(tokens[n - 1].text).value] else [])
  }

  /** `parse_splits` as a value: the splits and the reaction time of a line. */
  function SplitsOf(line: string): (r: (seq<int>, Option<int>))
    ensures forall x <- r.0 :: InSplitRange(x)
  {
    var t := Strip(line);
    var (reaction, rest) := match ReactionPrefix(t) case Some(p) => p case None => (None, t);
    var tokens := TokensFrom(rest, 0);
    (Selected(tokens, HasParens(tokens), |tokens|), reaction)
  }

  /** `parse_splits`. */
  method ParseSplits(line: string) returns (splits: seq<int>, reaction: Option<int>)
    ensures (splits, reaction) == SplitsOf(line)
  {
    hide TimeToSeconds, TokensFrom, ReactionPrefix, Strip;
    var t := Strip(line);
    reaction := None;
    match ReactionPrefix(t) {
      case Some((v, rest)) =>
        reaction := v;
        t := rest;
      case None =>
    }
    var tokens := Tokenize(t);
    var hasParens := HasParens(tokens);
    splits := [];
    if hasParens {
      for i := 0 to |tokens|
        invariant splits == Selected(tokens, true, i)
      {
        var secs := TimeToSeconds(tokens[i].text);
        if tokens[i].Paren? {
          if secs.Some? && 1000 <= secs.value <= 120000 {
            splits := splits + [secs.value];
          }
        } else if secs.Some? && 1000 <= secs.value <= 120000 {
          var nextIsParen := i + 1 < |tokens| && tokens[i + 1].Paren?;
          if !nextIsParen {
            splits := splits + [secs.value];
          }
        }
      }
    } else {
      for i := 0 to |tokens|
        invariant splits == Selected(tokens, false, i)
      {
        var secs := TimeToSeconds(tokens[i].text);
        if secs.Some? && 1000 <= secs.value <= 120000 {
          splits := splits + [secs.value];
        }
      }
    }
  }

  // -------------------------------------------------------------------------
  // What the choice amounts to
  // -------------------------------------------------------------------------

  /** The in-range values among some texts, in order. */
  function InRangeValues(texts: seq<string>): (r: seq<int>)
    ensures |r| <= |texts|
  {
    if texts == [] then []
    else
      var v := TimeToSeconds(texts[|texts| - 1]);
      InRangeValues(texts[..|texts| - 1]) + (if IsSplitValue(v) then [v.value] else [])
  }

  function Texts(tokens: seq<Token>): (r: seq<string>)
    ensures |r| == |tokens| && forall i :: 0 <= i < |tokens| ==> r[i] == tokens[i].text
  {
    if tokens == [] then [] else Texts(tokens[..|tokens| - 1]) + [tokens[|tokens| - 1].text]
  }

  /** Without parenthesised tokens the splits are the in-range values, in order. */
  lemma {:induction false} NoParensInRange(tokens: seq<Token>, n: nat)
    requires n <= |tokens|
    ensures Selected(tokens, false, n) == InRangeValues(Texts(tokens)[..n])
  {
    if n > 0 {
      NoParensInRange(tokens, n - 1);
      assert Texts(tokens)[..n][..n - 1] == Texts(tokens)[..n - 1];
    }
  }

  /** The HY-TEK relay layout: each cumulative value is followed by its split in parentheses. */
  function Interleaved(cumulative: seq<string>, diffs: seq<string>): (r: seq<Token>)
    requires |cumulative| == |diffs|
    ensures |r| == 2 * |diffs|
    ensures forall k :: 0 <= k < |diffs| ==> r[2 * k] == Bare(cumulative[k]) && r[2 * k + 1] == Paren(diffs[k])
  {
    if diffs == [] then []
    else
      var m := |diffs| - 1;
      Interleaved(cumulative[..m], diffs[..m]) + [Bare(cumulative[m]), Paren(diffs[m])]
  }

  lemma SelectedStep(tokens: seq<Token>, hasParens: bool, n: nat)
    requires 0 < n <= |tokens|
    ensures Selected(tokens, hasParens, n) == Selected(tokens, hasParens, n - 1) +
      (if Kept(tokens, hasParens, n - 1) then [TimeToSeconds(tokens[n - 1].text).value] else [])
  {
  }

  lemma InRangeStep(texts: seq<string>, k: nat)
    requires 0 < k <= |texts|
    ensures InRangeValues(texts[..k]) == InRangeValues(texts[..k - 1]) +
      (if IsSplitValue(TimeToSeconds(texts[k - 1])) then [TimeToSeconds(texts[k - 1]).value] else [])
  {
    assert texts[..k][..k - 1] == texts[..k - 1];
  }

  /** With every value paired to a parenthesised split, the cumulative values are all dropped. */
  lemma {:induction false} CumulativeDropped(cumulative: seq<string>, diffs: seq<string>, k: nat)
    requires |cumulative| == |diffs| && k <= |diffs|
    ensures var tokens := Interleaved(cumulative, diffs);
      Selected(tokens, true, 2 * k) == InRangeValues(diffs[..k])
  {
    var tokens := Interleaved(cumulative, diffs);
    if k > 0 {
      var m := 2 * k - 2;
      assert tokens[m] == Bare(cumulative[k - 1]) && tokens[m + 1] == Paren(diffs[k - 1]) by {
        assert m == 2 * (k - 1);
      }
      hide *;
      CumulativeDropped(cumulative, diffs, k - 1);
      SelectedStep(tokens, true, m + 2);
      SelectedStep(tokens, true, m + 1);
      InRangeStep(diffs, k);
      EmptyRight(Selected(tokens, true, m));
    }
  }

  /** The steps of `ReactionPrefix` on a prefix with a decimal point. */
  lemma ReactionSteps(t: string, u: string, j: nat, k: nat)
    requires StartsWith(t, "r:") && t[2..] == u
    requires u != "" && IsDigit(u[0]) && j < |u| && SpanDigits(u, 0) == j && u[j] == '.'
    requires SpanDigits(u, j + 1) == k
    ensures ReactionPrefix(t) == Some((ParseDecimal(u[..k]), Spaces(u[k..])))
  {
  }

  lemma ReactionText(u: string)
    ensures StartsWith("r:" + u, "r:") && ("r:" + u)[2..] == u
  {
    assert ("r:" + u)[..2] == "r:";
  }

  /** How `a.f rest` divides: the digits of `a`, the point, the digits of `f`, the rest. */
  lemma DecimalSpans(a: string, f: string, rest: string)
    requires a != "" && AllDigits(a) && AllDigits(f)
    ensures var u := a + "." + f + (" " + rest);
      IsDigit(u[0]) && |a| < |u| && SpanDigits(u, 0) == |a| && u[|a|] == '.' &&
      SpanDigits(u, |a| + 1) == |a + "." + f| &&
      u[..|a + "." + f|] == a + "." + f && u[|a + "." + f|..] == " " + rest
  {
    var num := a + "." + f;
    var u := num + (" " + rest);
    assert u[..|a|] == a;
    SpanDigitsAt(u, |a|);
    var k := |num|;
    forall i | |a| + 1 <= i < k ensures IsDigit(u[i]) {
      assert u[i] == f[i - |a| - 1];
    }
    SpanDigitsFrom(u, |a| + 1, k);
    assert u[..k] == num && u[k..] == " " + rest;
  }

  lemma ReactionRegroup(a: string, f: string, rest: string)
    ensures "r:" + a + "." + f + " " + rest == "r:" + (a + "." + f + (" " + rest))
  {
  }

  /** The reaction prefix `r:a.f ` is read as a reaction time and removed. */
  lemma ReactionPrefixOf(a: string, f: string, rest: string)
    requires a != "" && AllDigits(a) && AllDigits(f)
    requires rest == "" || !IsSpace(rest[0])
    ensures ReactionPrefix("r:" + a + "." + f + " " + rest) ==
      Some((Some(DigitsValue(a) * 100 + FracHundredths(f)), rest))
  {
    hide *;
    var num := a + "." + f;
    var u := num + (" " + rest);
    ReactionRegroup(a, f, rest);
    ReactionText(u);
    DecimalSpans(a, f, rest);
    ReactionSteps("r:" + u, u, |a|, |num|);
    ParseDecimalOf(a, f);
    SpacesOf(rest);
  }

  // -------------------------------------------------------------------------
  // is_split_line
  // -------------------------------------------------------------------------

  /** `^\*?(\d+|---)\s+[A-Za-z]`: a place (or `---`) and a word start a result line. */
  predicate IsResultStart(t: string) {
    var u := if t != "" && t[0] == '*' then t[1..] else t;
    var afterPlace :=
      match Number(u)
      case Some((_, rest)) => Some(rest)
      case None => if StartsWith(u, "---") then Some(u[3..]) else None;
    match afterPlace
    case None => false
    case Some(rest) =>
      match Gap(rest)
      case None => false
      case Some(v) => v != "" && IsLetter(v[0])
  }

  /** `re.sub(r'\([^)]+\)', '', s)`: drops every `(` ... `)` group with something inside. */
  function RemoveParens(s: string): (r: string)
    ensures |r| <= |s|
    decreases |s|
  {
    if s == "" then ""
    else if s[0] == '(' && 1 < IndexOf(s, ')', 1) < |s| then RemoveParens(s[IndexOf(s, ')', 1) + 1..])
    else [s[0]] + RemoveParens(s[1..])
  }

  /** The number of words that are in-range times. */
  function CountSplitTimes(parts: seq<string>): (n: nat)
    ensures n <= |parts|
  {
    if parts == [] then 0
    else CountSplitTimes(parts[1..]) + (if IsSplitValue(TimeToSeconds(parts[0])) then 1 else 0)
  }

  /**
   * `is_split_line`: not a result line; then either a reaction prefix, or at
   * least two words, after parenthesised groups are removed, of which at least
   * two and at least half are in-range times.
   */
  predicate IsSplitLine(line: string) {
    var t := Strip(line);
    if t == "" || IsResultStart(t) then false
    else if ReactionPrefix(t).Some? then true
    else
      // The reaction prefix is absent here, so removing it changes nothing.
      var cleaned := Strip(RemoveParens(t));
      var parts := Words(cleaned);
      if cleaned == "" || |parts| < 2 then false
      else
        var n := CountSplitTimes(parts);
        n >= 2 && 2 * n >= |parts|
  }

  /** Text without `(` loses nothing. */
  lemma {:induction false} RemoveParensKeeps(s: string)
    requires Lacks(s, '(')
    ensures RemoveParens(s) == s
    decreases |s|
  {
    if s != "" {
      RemoveParensKeeps(s[1..]);
      HeadTail(s, "");
      EmptyLeft(s);
      EmptyLeft(s[1..]);
    }
  }

  /** A non-empty group without `)` is dropped whole. */
  lemma RemoveParensGroup(b: string, c: string)
    requires b != "" && Lacks(b, ')')
    ensures RemoveParens("(" + b + ")" + c) == RemoveParens(c)
  {
    var s := "(" + b + ")" + c;
    var e := |b| + 1;
    assert s[e] == ')';
    forall k | 1 <= k < e ensures s[k] != ')' { assert s[k] == b[k - 1]; }

    assert s[e + 1..] == c;
  }
}
