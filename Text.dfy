/**
 * Character classes and string helpers shared by the parser model.
 * Whitespace follows Python's `str.isspace` (which is also what the `\s` class of
 * Python's `re` matches); digits and letters are the ASCII classes the source's
 * regular expressions spell out (`\d` is read as `[0-9]`).
 */
module Text {

  predicate IsSpace(c: char) {
    if c <= ' ' then ('\t' <= c <= '\r') || '\U{1C}' <= c
    else if c < '\U{85}' then false
    else (c == '\U{85}' || c == '\U{A0}' || c == '\U{1680}' || ('\U{2000}' <= c <= '\U{200A}')
          || c == '\U{2028}' || c == '\U{2029}' || c == '\U{202F}' || c == '\U{205F}' || c == '\U{3000}')
  }

  predicate IsDigit(c: char) { '0' <= c <= '9' }
  predicate IsUpper(c: char) { 'A' <= c <= 'Z' }
  predicate IsLower(c: char) { 'a' <= c <= 'z' }
  predicate IsLetter(c: char) { IsUpper(c) || IsLower(c) }

  /** The class `[A-Za-z'\-]` used for surnames throughout the source. */
  predicate IsNameChar(c: char) { IsLetter(c) || c == '\'' || c == '-' }

  predicate AllDigits(s: string) { forall i :: 0 <= i < |s| ==> IsDigit(s[i]) }
  predicate AllUpper(s: string) { forall i :: 0 <= i < |s| ==> IsUpper(s[i]) }
  predicate AllLetters(s: string) { forall i :: 0 <= i < |s| ==> IsLetter(s[i]) }
  predicate NoSpace(s: string) { forall i :: 0 <= i < |s| ==> !IsSpace(s[i]) }

  /** Python's `str.isupper` on ASCII text: some letter, and no lower-case letter. */
  predicate IsUpperWord(s: string) {
    (exists i :: 0 <= i < |s| && IsUpper(s[i])) && forall i :: 0 <= i < |s| ==> !IsLower(s[i])
  }

  function ToLower(c: char): (r: char)
    ensures IsUpper(c) ==> IsLower(r)
    ensures !IsUpper(c) ==> r == c
  {
    if IsUpper(c) then (c as int + 32) as char else c
  }

  /** `str.lower()` restricted to ASCII letters. */
  function Lower(s: string): (r: string)
    ensures |r| == |s|
    ensures forall i :: 0 <= i < |s| ==> r[i] == ToLower(s[i])
  {
    if s == "" then "" else [ToLower(s[0])] + Lower(s[1..])
  }

  predicate StartsWith(s: string, p: string) {
    |p| <= |s| && s[..|p|] == p
  }

  predicate EndsWith(s: string, p: string) {
    |p| <= |s| && s[|s| - |p|..] == p
  }

  /** Python's `sub in s`. */
  predicate Contains(s: string, sub: string)
    decreases |s|
  {
    StartsWith(s, sub) || (s != "" && Contains(s[1..], sub))
  }

  lemma ContainsAt(s: string, sub: string, i: nat)
    requires i + |sub| <= |s| && s[i..i + |sub|] == sub
    ensures Contains(s, sub)
    decreases i
  {
    if i > 0 {
      assert s[1..][i - 1..i - 1 + |sub|] == sub;
      ContainsAt(s[1..], sub, i - 1);
    }
  }

  lemma ContainsShort(s: string, sub: string)
    requires |s| < |sub|
    ensures !Contains(s, sub)
    decreases |s|
  {
    if s != "" { ContainsShort(s[1..], sub); }
  }

  /** A text that lacks some character of `sub` does not contain `sub`. */
  lemma {:induction false} LacksNotContains(s: string, sub: string, i: nat)
    requires i < |sub| && Lacks(s, sub[i])
    ensures !Contains(s, sub)
    decreases |s|
  {
    if |sub| <= |s| {
      assert s[..|sub|][i] == s[i];
    }
    if s != "" {
      LacksNotContains(s[1..], sub, i);
    }
  }

  /** Whether character `c` occurs in `s`. */
  predicate HasChar(s: string, c: char) {
    exists i :: 0 <= i < |s| && s[i] == c
  }

  lemma HasCharAppend(a: string, b: string, c: char)
    requires HasChar(a, c)
    ensures HasChar(a + b, c)
  {
    var i :| 0 <= i < |a| && a[i] == c;
    assert (a + b)[i] == c;
  }

  /** `c not in s`. */
  predicate Lacks(s: string, c: char) {
    forall k :: 0 <= k < |s| ==> s[k] != c
  }

  lemma LacksIndexOf(s: string, c: char)
    requires Lacks(s, c)
    ensures IndexOf(s, c, 0) == |s|
  {
  }

  /** The index of the first `c` in `s`, or `|s|` when there is none. */
  function IndexOf(s: string, c: char, from: nat): (r: nat)
    requires from <= |s|
    ensures from <= r <= |s|
    ensures r < |s| ==> s[r] == c
    ensures forall k :: from <= k < r ==> s[k] != c
    decreases |s| - from
  {
    if from == |s| || s[from] == c then from else IndexOf(s, c, from + 1)
  }

  // ---------------------------------------------------------------------
  // Spans: the end of the longest run of one character class from `i`
  // ---------------------------------------------------------------------

  function Span(s: string, i: nat, p: char -> bool): (j: nat)
    requires i <= |s|
    ensures i <= j <= |s|
    ensures forall k :: i <= k < j ==> p(s[k])
    ensures j == |s| || !p(s[j])
    decreases |s| - i
  {
    if i < |s| && p(s[i]) then Span(s, i + 1, p) else i
  }

  function SpanSpaces(s: string, i: nat): (j: nat)
    requires i <= |s|
    ensures i <= j <= |s|
    ensures forall k :: i <= k < j ==> IsSpace(s[k])
    ensures j == |s| || !IsSpace(s[j])
    decreases |s| - i
  {
    if i < |s| && IsSpace(s[i]) then SpanSpaces(s, i + 1) else i
  }

  function SpanDigits(s: string, i: nat): (j: nat)
    requires i <= |s|
    ensures i <= j <= |s|
    ensures forall k :: i <= k < j ==> IsDigit(s[k])
    ensures j == |s| || !IsDigit(s[j])
    decreases |s| - i
  {
    if i < |s| && IsDigit(s[i]) then SpanDigits(s, i + 1) else i
  }

  lemma SpanDigitsAt(t: string, n: nat)
    requires n <= |t| && AllDigits(t[..n]) && (n == |t| || !IsDigit(t[n]))
    ensures SpanDigits(t, 0) == n
  {
  }

  lemma {:induction false} SpanDigitsFrom(t: string, i: nat, n: nat)
    requires i <= n <= |t| && (forall k :: i <= k < n ==> IsDigit(t[k]))
    requires n == |t| || !IsDigit(t[n])
    ensures SpanDigits(t, i) == n
    decreases n - i
  {
    if i < n {
      SpanDigitsFrom(t, i + 1, n);
    }
  }

  /** The end of the run of name characters (letters, `'`, `-`) from `i`. */
  function SpanNameChars(s: string, i: nat): (j: nat)
    requires i <= |s|
    ensures i <= j <= |s|
    ensures forall k :: i <= k < j ==> IsNameChar(s[k])
    ensures j == |s| || !IsNameChar(s[j])
    decreases |s| - i
  {
    if i < |s| && IsNameChar(s[i]) then SpanNameChars(s, i + 1) else i
  }

  /** The end of the run of ASCII letters from `i`. */
  function SpanLetters(s: string, i: nat): (j: nat)
    requires i <= |s|
    ensures i <= j <= |s|
    ensures forall k :: i <= k < j ==> IsLetter(s[k])
    ensures j == |s| || !IsLetter(s[j])
    decreases |s| - i
  {
    if i < |s| && IsLetter(s[i]) then SpanLetters(s, i + 1) else i
  }

  function SpanNonSpace(s: string, i: nat): (j: nat)
    requires i <= |s|
    ensures i <= j <= |s|
    ensures forall k :: i <= k < j ==> !IsSpace(s[k])
    ensures j == |s| || IsSpace(s[j])
    decreases |s| - i
  {
    if i < |s| && !IsSpace(s[i]) then SpanNonSpace(s, i + 1) else i
  }

  // ---------------------------------------------------------------------
  // strip / split / join
  // ---------------------------------------------------------------------

  /** The start of the run of whitespace that ends at `j`, going no further left than `lo`. */
  function BackSpanSpaces(s: string, j: nat, lo: nat): (k: nat)
    requires lo <= j <= |s|
    ensures lo <= k <= j
    ensures forall m :: k <= m < j ==> IsSpace(s[m])
    ensures k == lo || !IsSpace(s[k - 1])
    decreases j
  {
    if j > lo && IsSpace(s[j - 1]) then BackSpanSpaces(s, j - 1, lo) else j
  }

  /** The start of the run of upper-case letters that ends at `j`. */
  function BackSpanUpper(s: string, j: nat): (k: nat)
    requires j <= |s|
    ensures k <= j
    ensures forall m :: k <= m < j ==> IsUpper(s[m])
    ensures k == 0 || !IsUpper(s[k - 1])
    decreases j
  {
    if j > 0 && IsUpper(s[j - 1]) then BackSpanUpper(s, j - 1) else j
  }

  /** Python's `str.lstrip()`. */
  function LStrip(s: string): (r: string)
    ensures |r| <= |s|
    ensures r == "" || !IsSpace(r[0])
    ensures s == "" || !IsSpace(s[0]) ==> r == s
  {
    var i := SpanSpaces(s, 0);
    if i == 0 then s else s[i..]
  }

  /** Python's `str.rstrip()`. */
  function RStrip(s: string): (r: string)
    ensures |r| <= |s|
    ensures r == "" || !IsSpace(r[|r| - 1])
    ensures s == "" || !IsSpace(s[|s| - 1]) ==> r == s
  {
    var j := BackSpanSpaces(s, |s|, 0);
    if j == |s| then s else s[..j]
  }

  /** Python's `str.strip()`. */
  function Strip(s: string): (r: string)
    ensures |r| <= |s|
    ensures r != "" ==> !IsSpace(r[0]) && !IsSpace(r[|r| - 1])
    ensures NoSpace(s) ==> r == s
  {
    var i := SpanSpaces(s, 0);
    var j := BackSpanSpaces(s, |s|, i);
    if i == 0 && j == |s| then s else s[i..j]
  }

  lemma StripKeeps(s: string)
    requires s != "" && !IsSpace(s[0]) && !IsSpace(s[|s| - 1])
    ensures Strip(s) == s
  {
    assert SpanSpaces(s, 0) == 0;
    assert BackSpanSpaces(s, |s|, 0) == |s|;
  }

  /** A single blank after stripped text is dropped. */
  lemma StripBlankEnd(a: string)
    requires a != "" && !IsSpace(a[0]) && !IsSpace(a[|a| - 1])
    ensures Strip(a + " ") == a
  {
    var s := a + " ";
    assert s[0] == a[0] && s[|a| - 1] == a[|a| - 1] && s[|a|] == ' ';
    assert SpanSpaces(s, 0) == 0;
    assert BackSpanSpaces(s, |s|, 0) == |a|;
    assert s[..|a|] == a;
  }

  lemma StripFirst(s: string)
    requires s != "" && !IsSpace(s[0])
    ensures Strip(s) != "" && Strip(s)[0] == s[0]
  {
    var j := BackSpanSpaces(s, |s|, 0);
    assert j > 0;
  }

  /** Python's `s.lstrip(c)` for one character. */
  function LStripChar(s: string, c: char): (r: string)
    ensures |r| <= |s|
    ensures r == "" || r[0] != c
  {
    if s != "" && s[0] == c then LStripChar(s[1..], c) else s
  }

  /** Python's `s.lstrip(cs)`: drops every leading character that occurs in `cs`. */
  function LStripAny(s: string, cs: string): (r: string)
    ensures |r| <= |s|
    ensures r == "" || r[0] !in cs
  {
    if s != "" && s[0] in cs then LStripAny(s[1..], cs) else s
  }

  /** Python's `s.rstrip(c)` for one character. */
  function RStripChar(s: string, c: char): (r: string)
    ensures |r| <= |s|
    ensures r != "" ==> r[0] == s[0]
    ensures r == "" || r[|r| - 1] != c
  {
    if s != "" && s[|s| - 1] == c then RStripChar(s[..|s| - 1], c) else s
  }

  /** Python's `str.split()` with no argument: the maximal runs of non-space characters. */
  function Words(s: string): (ws: seq<string>)
    ensures forall w <- ws :: w != "" && NoSpace(w)
    decreases |s|
  {
    var t := LStrip(s);
    if t == "" then []
    else
      var j := SpanNonSpace(t, 0);
      [t[..j]] + Words(t[j..])
  }

  /** A word followed by a blank (or by nothing) is the first word. */
  lemma WordsCons(w: string, rest: string)
    requires w != "" && NoSpace(w) && (rest == "" || IsSpace(rest[0]))
    ensures Words(w + rest) == [w] + Words(rest)
  {
    var s := w + rest;
    assert s[0] == w[0];
    assert LStrip(s) == s;
    assert forall k :: 0 <= k < |w| ==> s[k] == w[k];
    assert |w| == |s| || s[|w|] == rest[0];
    assert SpanNonSpace(s, 0) == |w| by { SpanNonSpaceTo(s, 0, |w|); }
    assert s[..|w|] == w && s[|w|..] == rest;
  }

  lemma {:induction false} SpanNonSpaceTo(s: string, i: nat, j: nat)
    requires i <= j <= |s| && (forall k :: i <= k < j ==> !IsSpace(s[k])) && (j == |s| || IsSpace(s[j]))
    ensures SpanNonSpace(s, i) == j
    decreases j - i
  {
    if i < j {
      SpanNonSpaceTo(s, i + 1, j);
    }
  }

  /** A leading blank is skipped. */
  lemma WordsBlank(rest: string)
    requires rest == "" || !IsSpace(rest[0])
    ensures Words(" " + rest) == Words(rest)
  {
    var s := " " + rest;
    assert SpanSpaces(s, 0) == 1 by {
      assert IsSpace(s[0]);
      assert s[1..] == rest;
    }
    assert LStrip(s) == rest;
  }

  lemma WordsNone()
    ensures Words("") == []
  {
  }

  /** A word followed by a blank and more text. */
  lemma WordsSep(w: string, rest: string)
    requires w != "" && NoSpace(w) && (rest == "" || !IsSpace(rest[0]))
    ensures Words(w + " " + rest) == [w] + Words(rest)
  {
    var r := " " + rest;
    assert IsSpace(r[0]);
    hide *;
    WordsCons(w, r);
    WordsBlank(rest);
    Assoc(w, " ", rest);
  }

  lemma WordsOne(c: string)
    requires c != "" && NoSpace(c)
    ensures Words(c) == [c]
  {
    WordsNone();
    WordsCons(c, "");
    assert c + "" == c;
  }

  /** The words of three blank-separated words. */
  lemma WordsOfThree(a: string, b: string, c: string)
    requires a != "" && NoSpace(a) && b != "" && NoSpace(b) && c != "" && NoSpace(c)
    ensures Words(a + " " + (b + " " + c)) == [a, b, c]
  {
    var bc := b + " " + c;
    assert bc[0] == b[0];
    assert !IsSpace(c[0]) && !IsSpace(bc[0]);
    hide Words, NoSpace, IsSpace;
    WordsOne(c);
    WordsSep(b, c);
    WordsSep(a, bc);
  }

  /** `' '.join(ws)`. */
  function Unwords(ws: seq<string>): string {
    if ws == [] then "" else if |ws| == 1 then ws[0] else ws[0] + " " + Unwords(ws[1..])
  }

  lemma UnwordsFirst(ws: seq<string>)
    requires ws != [] && ws[0] != ""
    ensures Unwords(ws) != "" && Unwords(ws)[0] == ws[0][0]
  {
  }

  /** Joining two non-empty runs of words puts one blank between them. */
  lemma {:induction false} UnwordsConcat(a: seq<string>, b: seq<string>)
    requires a != [] && b != []
    ensures Unwords(a + b) == Unwords(a) + " " + Unwords(b)
    decreases |a|
  {
    assert (a + b)[0] == a[0] && (a + b)[1..] == a[1..] + b;
    if |a| > 1 {
      UnwordsConcat(a[1..], b);
      Assoc(a[0] + " ", Unwords(a[1..]) + " ", Unwords(b));
      Assoc(a[0] + " ", Unwords(a[1..]), " ");
    }
  }

  /** Splitting words joined by single blanks gives them back. */
  lemma {:induction false} WordsOfUnwords(ws: seq<string>)
    requires forall w <- ws :: w != "" && NoSpace(w)
    ensures Words(Unwords(ws)) == ws
    decreases |ws|
  {
    if ws == [] {
      WordsNone();
    } else if |ws| == 1 {
      assert ws[0] in ws;
      WordsOne(ws[0]);
    } else {
      hide Words, Unwords, NoSpace, IsSpace;
      assert ws[0] in ws && ws[1] in ws;
      assert forall w <- ws[1..] :: w in ws;
      WordsOfUnwords(ws[1..]);
      WordsOfUnwordsStep(ws[0], ws[1..]);
      assert [ws[0]] + ws[1..] == ws;
    }
  }

  /** One more word in front of words that already read back. */
  lemma WordsOfUnwordsStep(w: string, ws: seq<string>)
    requires w != "" && NoSpace(w) && ws != [] && ws[0] != "" && NoSpace(ws[0])
    requires Words(Unwords(ws)) == ws
    ensures Words(Unwords([w] + ws)) == [w] + ws
  {
    assert ws[0][0] in ws[0] && !IsSpace(ws[0][0]);
    hide Words, NoSpace, IsSpace;
    assert ([w] + ws)[1..] == ws;
    UnwordsFirst(ws);
    WordsSep(w, Unwords(ws));
  }

  /** `re.sub(r'\s+', ' ', s)`: every run of whitespace becomes one blank. */
  function Collapse(s: string): (r: string)
    ensures r == "" <==> s == ""
    ensures s != "" && !IsSpace(s[0]) ==> r[0] == s[0]
    ensures s != "" && IsSpace(s[0]) ==> r[0] == ' '
    decreases |s|
  {
    if s == "" then ""
    else if IsSpace(s[0]) then " " + Collapse(LStrip(s))
    else [s[0]] + Collapse(s[1..])
  }

  /** No whitespace other than single blanks. */
  predicate Collapsed(s: string) {
    (forall i :: 0 <= i < |s| && IsSpace(s[i]) ==> s[i] == ' ')
    && (forall i :: 0 <= i < |s| - 1 ==> !(s[i] == ' ' && s[i + 1] == ' '))
  }

  lemma {:induction false} CollapseCollapses(s: string)
    ensures Collapsed(Collapse(s))
    decreases |s|
  {
    if s == "" {
    } else if IsSpace(s[0]) {
      var t := LStrip(s);
      assert |t| < |s|;
      CollapseCollapses(t);
    } else {
      CollapseCollapses(s[1..]);
      var r := Collapse(s);
      assert r == [s[0]] + Collapse(s[1..]);
    }
  }

  /** Text that is already collapsed is left alone. */
  lemma {:induction false} CollapseKeeps(s: string)
    requires Collapsed(s)
    ensures Collapse(s) == s
    decreases |s|
  {
    if s != "" {
      CollapsedSlice(s, 1, |s|);
      CollapseKeeps(s[1..]);
      if IsSpace(s[0]) {
        assert SpanSpaces(s, 1) == 1;
        assert LStrip(s) == s[1..];
      }
      assert s == [s[0]] + s[1..];
    }
  }

  lemma {:induction false} BackSpanUpperTo(s: string, j: nat, k: nat)
    requires k <= j <= |s| && (forall m :: k <= m < j ==> IsUpper(s[m])) && (k == 0 || !IsUpper(s[k - 1]))
    ensures BackSpanUpper(s, j) == k
    decreases j
  {
    if j > k {
      BackSpanUpperTo(s, j - 1, k);
    }
  }

  /** A run of capitals after a character that is not one. */
  lemma UpperRun(a: string, b: string)
    requires a != "" && !IsUpper(a[|a| - 1]) && AllUpper(b)
    ensures BackSpanUpper(a + b, |a + b|) == |a|
  {
    var t := a + b;
    assert t[|a| - 1] == a[|a| - 1];
    forall m | |a| <= m < |t| ensures IsUpper(t[m]) {
      assert t[m] == b[m - |a|];
    }
    BackSpanUpperTo(t, |t|, |a|);
  }

  lemma CollapsedSlice(s: string, i: nat, j: nat)
    requires Collapsed(s) && i <= j <= |s|
    ensures Collapsed(s[i..j])
  {
    var t := s[i..j];
    forall k | 0 <= k < |t| ensures t[k] == s[i + k] { }
  }

  lemma StripCollapsed(s: string)
    requires Collapsed(s)
    ensures Collapsed(Strip(s))
  {
    var i := SpanSpaces(s, 0);
    var j := BackSpanSpaces(s, |s|, i);
    CollapsedSlice(s, i, j);
  }

  /** Python's `s.replace(pat, rep)`: leftmost, non-overlapping occurrences. */
  function ReplaceAll(s: string, pat: string, rep: string): (r: string)
    requires pat != ""
    ensures !Contains(s, pat) ==> r == s
    decreases |s|
  {
    if s == "" then ""
    else if StartsWith(s, pat) then rep + ReplaceAll(s[|pat|..], pat, rep)
    else [s[0]] + ReplaceAll(s[1..], pat, rep)
  }

  /** No occurrence of a pattern that begins with whitespace starts inside a word. */
  lemma {:induction false} ReplaceAllAfterWord(a: string, b: string, pat: string, rep: string)
    requires pat != "" && IsSpace(pat[0]) && NoSpace(a)
    ensures ReplaceAll(a + b, pat, rep) == a + ReplaceAll(b, pat, rep)
    decreases |a|
  {
    if a == "" {
      assert a + b == b;
    } else {
      var s := a + b;
      assert !StartsWith(s, pat) by { assert s[0] == a[0]; }
      assert s[1..] == a[1..] + b;
      ReplaceAllAfterWord(a[1..], b, pat, rep);
      HeadTail(a, ReplaceAll(b, pat, rep));
    }
  }

  lemma ReplaceAllLeading(pat: string, b: string, rep: string)
    requires pat != ""
    ensures ReplaceAll(pat + b, pat, rep) == rep + ReplaceAll(b, pat, rep)
  {
    var s := pat + b;
    assert s[..|pat|] == pat;
    assert s[|pat|..] == b;
  }

  // Sequence algebra, kept apart from the lemmas that use it: an extensional
  // equality proved next to quantified facts about the same strings is costly.

  lemma HeadTail(a: string, x: string)
    requires a != ""
    ensures [a[0]] + (a[1..] + x) == a + x
  {
    assert a == [a[0]] + a[1..];
  }

  lemma Assoc(a: string, b: string, c: string)
    ensures a + b + c == a + (b + c)
  {
  }

  lemma EmptyLeft(a: string)
    ensures "" + a == a && a + "" == a
  {
  }

  lemma EmptyRight<T>(a: seq<T>)
    ensures a + [] == a
  {
  }

  lemma LastOf(a: string, b: string)
    requires b != ""
    ensures (a + b)[|a + b| - 1] == b[|b| - 1]
  {
  }

  // ---------------------------------------------------------------------
  // `s.split(c)`
  // ---------------------------------------------------------------------

  /** `s.split(c)`: the pieces between the occurrences of `c`, empty ones included. */
  function SplitOn(s: string, c: char): (r: seq<string>)
    ensures |r| >= 1
    ensures forall p <- r :: Lacks(p, c)
    decreases |s|
  {
    var i := IndexOf(s, c, 0);
    if i == |s| then [s] else [s[..i]] + SplitOn(s[i + 1..], c)
  }

  /** `c.join(ps)` for a one-character separator. */
  function JoinWith(ps: seq<string>, c: char): string
    decreases |ps|
  {
    if |ps| == 0 then "" else if |ps| == 1 then ps[0] else ps[0] + [c] + JoinWith(ps[1..], c)
  }

  /** Joining the pieces again gives back the text. */
  lemma {:induction false} SplitJoin(s: string, c: char)
    ensures JoinWith(SplitOn(s, c), c) == s
    decreases |s|
  {
    var i := IndexOf(s, c, 0);
    if i < |s| {
      var rest := SplitOn(s[i + 1..], c);
      assert SplitOn(s, c) == [s[..i]] + rest;
      SplitJoin(s[i + 1..], c);
      hide SplitOn, IndexOf;
      JoinCons(s[..i], rest, c);
      assert s == s[..i] + [c] + s[i + 1..];
    }
  }

  lemma JoinCons(p: string, rest: seq<string>, c: char)
    requires |rest| >= 1
    ensures JoinWith([p] + rest, c) == p + [c] + JoinWith(rest, c)
  {
    assert ([p] + rest)[1..] == rest;
  }

  /** Splitting a join of pieces without the separator gives back the pieces. */
  lemma {:induction false} JoinSplit(ps: seq<string>, c: char)
    requires |ps| >= 1 && forall p <- ps :: Lacks(p, c)
    ensures SplitOn(JoinWith(ps, c), c) == ps
    decreases |ps|
  {
    var p := ps[0];
    assert p in ps;
    LacksIndexOf(p, c);
    if |ps| > 1 {
      var rest := JoinWith(ps[1..], c);
      assert JoinWith(ps, c) == p + [c] + rest;
      assert forall q <- ps[1..] :: q in ps;
      JoinSplit(ps[1..], c);
      SplitOnStep(p, rest, c);
      hide SplitOn, JoinWith, Lacks;
      assert [p] + ps[1..] == ps;
    }
  }

  /** Splitting at the first separator, after a piece that lacks it. */
  lemma SplitOnStep(p: string, rest: string, c: char)
    requires Lacks(p, c)
    ensures SplitOn(p + [c] + rest, c) == [p] + SplitOn(rest, c)
  {
    var s := p + [c] + rest;
    assert forall k :: 0 <= k < |p| ==> s[k] == p[k];
    assert s[|p|] == c;
    assert IndexOf(s, c, 0) == |p| by { IndexOfFirst(s, c, |p|); }
    assert s[..|p|] == p && s[|p| + 1..] == rest;
  }

  lemma IndexOfFirst(s: string, c: char, i: nat)
    requires i < |s| && s[i] == c && forall k :: 0 <= k < i ==> s[k] != c
    ensures IndexOf(s, c, 0) == i
  {
    IndexOfFrom(s, c, 0, i);
  }

  lemma {:induction false} IndexOfFrom(s: string, c: char, from: nat, i: nat)
    requires from <= i < |s| && s[i] == c && forall k :: from <= k < i ==> s[k] != c
    ensures IndexOf(s, c, from) == i
    decreases i - from
  {
    if from < i {
      IndexOfFrom(s, c, from + 1, i);
    }
  }
}
