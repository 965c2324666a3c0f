/**
 * Relay rosters: the line that lists the four swimmers of a relay, either as
 * numbered legs `1) Name, First YR 2) r:0.22 Name, First YR ...` or as an
 * unnumbered run `Name, First [M] YR Name, First YR`.
 */
module Roster {
  import opened Wrappers
  import opened Text
  import opened Times
  import opened Splits

  /** One swimmer of a roster: name, class year or two-digit age, leg and reaction time. */
  datatype RosterEntry = RosterEntry(name: string, year: string, leg: Option<nat>, reaction: Option<int>)

  predicate IsYearCode(y: string) { y == "FR" || y == "SO" || y == "JR" || y == "SR" || y == "GS" }

  /** `(\d{2}|FR|SO|JR|SR|GS)` */
  predicate IsYearOrAge(y: string) {
    |y| == 2 && ((IsDigit(y[0]) && IsDigit(y[1])) || IsYearCode(y))
  }

  predicate YearOrAgeAt(s: string, i: nat) {
    i + 2 <= |s| && IsYearOrAge(s[i..i + 2])
  }

  // -------------------------------------------------------------------------
  // The merged age: `re.sub(r'(\d{2})(\d\))', r'\1 \2', line)`
  // -------------------------------------------------------------------------

  predicate MergedAt(s: string) {
    |s| >= 4 && IsDigit(s[0]) && IsDigit(s[1]) && IsDigit(s[2]) && s[3] == ')'
  }

  /** Separates every two-digit age glued to the next leg marker, scanning left to right. */
  function FixMergedAge(s: string): (r: string)
    decreases |s|
  {
    if s == "" then ""
    else if MergedAt(s) then s[..2] + " " + s[2..4] + FixMergedAge(s[4..])
    else [s[0]] + FixMergedAge(s[1..])
  }

  // -------------------------------------------------------------------------
  // Numbered legs: `re.split(r'(\d)\)', line)`
  // -------------------------------------------------------------------------

  /** A leg marker `d)` at `i`. */
  predicate MarkerAt(s: string, i: nat) {
    i + 1 < |s| && IsDigit(s[i]) && s[i + 1] == ')'
  }

  /** The first leg marker at or after `i`, or `|s|`. */
  function NextMarker(s: string, i: nat): (j: nat)
    requires i <= |s|
    ensures i <= j <= |s|
    ensures j < |s| ==> MarkerAt(s, j)
    ensures forall k :: i <= k < j ==> !MarkerAt(s, k)
    decreases |s| - i
  {
    if i == |s| || MarkerAt(s, i) then i else NextMarker(s, i + 1)
  }

  /** `re.search(r'\d\)', line)` */
  predicate HasLegMarker(s: string) {
    NextMarker(s, 0) < |s|
  }

  /** A leg number and the text up to the next marker. */
  datatype Segment = Segment(leg: nat, content: string)

  /** The segments of text that starts with a marker. */
  function SegmentsFrom(s: string): (r: seq<Segment>)
    requires MarkerAt(s, 0)
    ensures r != [] && r[0].leg == DigitValue(s[0])
    ensures forall g <- r :: g.leg < 10
    decreases |s|
  {
    var j := NextMarker(s, 2);
    [Segment(DigitValue(s[0]), s[2..j])] + (if j < |s| then SegmentsFrom(s[j..]) else [])
  }

  /** The (leg, content) pairs of the split; the text before the first marker is dropped. */
  function Segments(s: string): (r: seq<Segment>)
    ensures forall g <- r :: g.leg < 10
  {
    var j := NextMarker(s, 0);
    if j < |s| then SegmentsFrom(s[j..]) else []
  }

  /**
   * `^(.+?)\s+(\d{2}|FR|SO|JR|SR|GS)\s*$` on text without surrounding blanks:
   * the last two characters are the year or age, a blank precedes them, and the
   * name is what comes before that blank run (on one line).
   */
  function NameYear(c: string): (r: Option<(string, string)>)
    ensures r.Some? ==> IsYearOrAge(r.value.1)
  {
    if |c| < 4 then None
    else
      var y := c[|c| - 2..];
      var k := BackSpanSpaces(c, |c| - 2, 1);
      if IsYearOrAge(y) && k < |c| - 2 && Lacks(c[..k], '\n') then Some((Strip(c[..k]), y)) else None
  }

  /** The swimmer of one numbered segment, with the reaction time read from a leading `r:`. */
  function SegmentEntry(g: Segment): (r: Option<RosterEntry>)
    ensures r.Some? ==> HasChar(r.value.name, ',') && IsYearOrAge(r.value.year) && r.value.leg == Some(g.leg)
  {
    var content := Strip(g.content);
    var (reaction, rest) :=
      match ReactionPrefix(content)
      case Some((v, after)) => (v, Strip(after))
      case None => (None, content);
    NamedEntry(rest, Some(g.leg), reaction)
  }

  /** The entry for a name and year found in `rest`, kept only when the name has a comma. */
  function NamedEntry(rest: string, leg: Option<nat>, reaction: Option<int>): (r: Option<RosterEntry>)
    ensures r.Some? ==> HasChar(r.value.name, ',') && IsYearOrAge(r.value.year) && r.value.leg == leg
    ensures r.Some? ==> r.value.reaction == reaction
  {
    match NameYear(rest)
    case None => None
    case Some((name, year)) =>
      if HasChar(name, ',') then Some(RosterEntry(name, year, leg, reaction)) else None
  }

  /** The swimmers of the first `n` segments, in order. */
  function NumberedEntries(segs: seq<Segment>): (r: seq<RosterEntry>)
    ensures forall e <- r :: HasChar(e.name, ',') && IsYearOrAge(e.year) && e.leg.Some?
  {
    if segs == [] then []
    else
      var last := segs[|segs| - 1];
      NumberedEntries(segs[..|segs| - 1]) +
      (match SegmentEntry(last) case Some(e) => [e] case None => [])
  }

  // -------------------------------------------------------------------------
  // Unnumbered rosters: `re.findall` of
  // `([A-Za-z'\-]+,\s*[A-Za-z]+(?:\s+[A-Z])?)\s+(FR|SO|JR|SR|GS|\d{2})`
  // -------------------------------------------------------------------------

  /**
   * `(?:\s+[A-Z])?\s+(FR|SO|JR|SR|GS|\d{2})` after the first name ends at
   * `l`: the end of the name group and the start of the year. The middle
   * initial is tried first and given up when the year does not follow it.
   */
  function InitialAndYear(s: string, l: nat): (r: Option<(nat, nat)>)
    requires l <= |s|
    ensures r.Some? ==> l <= r.value.0 < r.value.1 && YearOrAgeAt(s, r.value.1)
  {
    var m := SpanSpaces(s, l);
    if m == l then None
    else
      var y := if m < |s| && IsUpper(s[m]) then SpanSpaces(s, m + 1) else m;
      if y > m + 1 && YearOrAgeAt(s, y) then Some((m + 1, y))
      else if YearOrAgeAt(s, m) then Some((l, m))
      else None
  }

  /** `[A-Za-z'\-]+,\s*[A-Za-z]+` from `p`: the end of the first name. */
  function SurnameFirst(s: string, p: nat): (r: Option<nat>)
    requires p <= |s|
    ensures r.Some? ==> p < r.value <= |s|
  {
    var j := SpanNameChars(s, p);
    if j == p || j == |s| || s[j] != ',' then None
    else
      var k := SpanSpaces(s, j + 1);
      var l := SpanLetters(s, k);
      if l == k then None else Some(l)
  }

  /** The match that starts at `p`, as the two groups and the end of the match. */
  function FallbackAt(s: string, p: nat): (r: Option<(string, string, nat)>)
    requires p <= |s|
    ensures r.Some? ==> p < r.value.2 <= |s| && IsYearOrAge(r.value.1)
  {
    match SurnameFirst(s, p)
    case None => None
    case Some(l) =>
      match InitialAndYear(s, l)
      case None => None
      case Some((e, y)) => Some((s[p..e], s[y..y + 2], y + 2))
  }

  /** All matches from `p`, left to right and not overlapping. */
  function FallbackMatches(s: string, p: nat): (r: seq<(string, string)>)
    requires p <= |s|
    ensures forall g <- r :: IsYearOrAge(g.1)
    decreases |s| - p
  {
    if p == |s| then []
    else
      match FallbackAt(s, p)
      case Some((name, year, q)) => [(name, year)] + FallbackMatches(s, q)
      case None => FallbackMatches(s, p + 1)
  }

  /** The swimmers of the unnumbered matches: stripped names that hold a comma, without leg or reaction. */
  function FallbackEntries(matches: seq<(string, string)>): (r: seq<RosterEntry>)
    ensures forall e <- r :: HasChar(e.name, ',') && e.leg.None? && e.reaction.None?
  {
    if matches == [] then []
    else
      var (name, year) := matches[|matches| - 1];
      FallbackEntries(matches[..|matches| - 1]) +
      (if HasChar(Strip(name), ',') then [RosterEntry(Strip(name), year, None, None)] else [])
  }

  /**
   * `parse_relay_swimmers` as a value: the numbered swimmers when the line has
   * a leg marker and at least one segment gives a swimmer, else the unnumbered
   * matches.
   */
  function RelaySwimmers(line: string): (r: seq<RosterEntry>)
    ensures forall e <- r :: HasChar(e.name, ',')
    ensures (forall e <- r :: e.leg.Some?) || (forall e <- r :: e.leg.None? && e.reaction.None?)
  {
    var s := FixMergedAge(line);
    var numbered := if HasLegMarker(s) then NumberedEntries(Segments(s)) else [];
    if numbered != [] then numbered else FallbackEntries(FallbackMatches(s, 0))
  }

  /** `parse_relay_swimmers`. */
  method ParseRelaySwimmers(line: string) returns (swimmers: seq<RosterEntry>)
    ensures swimmers == RelaySwimmers(line)
  {
    hide FixMergedAge, HasLegMarker, Segments, SegmentEntry, FallbackMatches, Strip;
    var s := FixMergedAge(line);
    swimmers := [];
    if HasLegMarker(s) {
      var parts := Segments(s);
      var i := 0;
      while i < |parts|
        invariant i <= |parts|
        invariant swimmers == NumberedEntries(parts[..i])
      {
        assert parts[..i + 1][..i] == parts[..i];
        match SegmentEntry(parts[i]) {
          case Some(e) => swimmers := swimmers + [e];
          case None =>
        }
        i := i + 1;
      }
      assert parts[..i] == parts;
      if swimmers != [] {
        return;
      }
    }
    var matches := FallbackMatches(s, 0);
    for i := 0 to |matches|
      invariant swimmers == FallbackEntries(matches[..i])
    {
      assert matches[..i + 1][..i] == matches[..i];
      var (name, year) := matches[i];
      name := Strip(name);
      if HasChar(name, ',') {
        swimmers := swimmers + [RosterEntry(name, year, None, None)];
      }
    }
    assert matches[..|matches|] == matches;
  }

  // -------------------------------------------------------------------------
  // is_relay_swimmer_line
  // -------------------------------------------------------------------------

  /**
   * `^\d\)\s*(?:r:[+\-]?\d+\.?\d*\s+)?[A-Za-z'\-]+` together with a comma
   * anywhere. The optional reaction group starts with `r`, itself a name
   * character, so the pattern holds exactly when a name character follows the
   * marker and its blanks.
   */
  predicate NumberedRosterStart(t: string) {
    |t| >= 2 && IsDigit(t[0]) && t[1] == ')' &&
    var k := SpanSpaces(t, 2); k < |t| && IsNameChar(t[k]) && HasChar(t, ',')
  }

  predicate IsClassCode(y: string) { y == "FR" || y == "SO" || y == "JR" || y == "SR" }

  /** A name character run ending at the comma `c`, then blanks and a letter; the index of that letter. */
  function FirstNameAfter(t: string, c: nat): (k: nat)
    requires c < |t|
    ensures c < k <= |t|
  {
    SpanSpaces(t, c + 1)
  }

  predicate NameComma(t: string, c: nat) {
    0 < c < |t| && t[c] == ',' && IsNameChar(t[c - 1])
  }

  /**
   * One match of `[A-Za-z'\-]+,\s+[A-Za-z]+.*?(FR|SO|JR|SR)\s+[A-Za-z'\-]+,`
   * whose first comma is at `c` and whose class code is at `y`.
   */
  predicate TwoNamesAt(t: string, c: nat, y: nat) {
    NameComma(t, c) &&
    var k := FirstNameAfter(t, c);
    k > c + 1 && k < y && y + 2 <= |t| && IsLetter(t[k]) && Lacks(t[k..y], '\n') &&
    IsClassCode(t[y..y + 2]) &&
    var m := SpanSpaces(t, y + 2);
    m > y + 2 && m < |t| && var q := SpanNameChars(t, m); q > m && q < |t| && t[q] == ','
  }

  /** `^[A-Za-z'\-]+,\s+[A-Za-z]+.*?(FR|SO|JR|SR|GS|\d{2})$`: one swimmer, year last. */
  predicate LastSwimmerLine(t: string) {
    var c := SpanNameChars(t, 0);
    c > 0 && c < |t| && t[c] == ',' &&
    var k := FirstNameAfter(t, c);
    k > c + 1 && k + 3 <= |t| && IsLetter(t[k]) && Lacks(t[k..|t| - 2], '\n') &&
    IsYearOrAge(t[|t| - 2..])
  }

  /** `is_relay_swimmer_line` */
  predicate IsRelaySwimmerLine(line: string) {
    var t := Strip(line);
    NumberedRosterStart(t) ||
    (exists c, y | 0 <= c < y <= |t| :: TwoNamesAt(t, c, y)) ||
    LastSwimmerLine(t)
  }

  // -------------------------------------------------------------------------
  // Properties
  // -------------------------------------------------------------------------

  /** An age glued to a leg marker is separated from it. */
  lemma FixMergedAgeSplits(a: string, d: char, rest: string)
    requires |a| == 2 && AllDigits(a) && IsDigit(d)
    ensures FixMergedAge(a + [d] + ")" + rest) == a + " " + ([d] + ")") + FixMergedAge(rest)
  {
    var s := a + [d] + ")" + rest;
    assert MergedAt(s);
    assert s[..2] == a && s[2..4] == [d] + ")" && s[4..] == rest;
  }

  /** Text without `)` is left alone. */
  lemma {:induction false} FixMergedAgeKeeps(s: string)
    requires Lacks(s, ')')
    ensures FixMergedAge(s) == s
    decreases |s|
  {
    if s != "" {
      assert !MergedAt(s);
      FixMergedAgeKeeps(s[1..]);
      assert [s[0]] + s[1..] == s;
    }
  }

  /** A leading `r:a.f` in a segment becomes that leg's reaction time. */
  lemma SegmentReaction(g: Segment, a: string, f: string, rest: string)
    requires a != "" && AllDigits(a) && AllDigits(f)
    requires rest != "" && !IsSpace(rest[0]) && !IsSpace(rest[|rest| - 1])
    requires g.content == "r:" + a + "." + f + " " + rest
    ensures SegmentEntry(g) == NamedEntry(rest, Some(g.leg), Some(DigitsValue(a) * 100 + FracHundredths(f)))
  {
    var c := g.content;
    assert c[0] == 'r';
    LastOf("r:" + a + "." + f + " ", rest);
    StripKeeps(c);
    StripKeeps(rest);
    ReactionPrefixOf(a, f, rest);
  }

  // The segmenter inverts the rendering of numbered legs.

  /** Content in which no digit is followed by `)`. */
  predicate MarkerFree(c: string) {
    forall k :: 0 <= k < |c| - 1 ==> !(IsDigit(c[k]) && c[k + 1] == ')')
  }

  predicate Renderable(segs: seq<Segment>) {
    forall g <- segs :: g.leg < 10 && MarkerFree(g.content)
  }

  /** `d)content` */
  function LegText(g: Segment): (r: string)
    requires g.leg < 10
    ensures |r| == |g.content| + 2 && MarkerAt(r, 0)
  {
    [DigitChar(g.leg)] + ")" + g.content
  }

  /** The legs written one after another. */
  function RosterText(segs: seq<Segment>): (r: string)
    requires forall g <- segs :: g.leg < 10
    ensures segs != [] ==> MarkerAt(r, 0)
  {
    if segs == [] then "" else LegText(segs[0]) + RosterText(segs[1..])
  }

  lemma NextMarkerIs(s: string, i: nat, j: nat)
    requires i <= j <= |s| && (j == |s| || MarkerAt(s, j))
    requires forall k :: i <= k < j ==> !MarkerAt(s, k)
    ensures NextMarker(s, i) == j
  {
  }

  lemma SegmentsAtStart(s: string)
    requires MarkerAt(s, 0)
    ensures Segments(s) == SegmentsFrom(s)
  {
    NextMarkerIs(s, 0, 0);
    assert s[0..] == s;
  }

  /** The first leg of a rendered roster runs to the end of its content. */
  lemma FirstLeg(g: Segment, tail: string)
    requires g.leg < 10 && MarkerFree(g.content) && (tail == "" || MarkerAt(tail, 0))
    ensures var s := LegText(g) + tail;
      SegmentsFrom(s) == [g] + (if tail == "" then [] else SegmentsFrom(tail))
  {
    var x := LegText(g);
    var s := x + tail;
    var c := g.content;
    forall k | 2 <= k < |x| ensures !MarkerAt(s, k) {
      if k + 1 < |x| {
        assert s[k] == c[k - 2] && s[k + 1] == c[k - 1];
      } else if k + 1 < |s| {
        assert s[k + 1] == tail[0];
      }
    }
    if tail != "" {
      assert s[|x|] == tail[0] && s[|x| + 1] == tail[1];
    }
    NextMarkerIs(s, 2, |x|);
    assert s[2..|x|] == c;
    assert s[|x|..] == tail;
    assert s[0] == DigitChar(g.leg);
  }

  /** Splitting a rendered roster at its leg markers gives back its legs. */
  lemma {:induction false} SegmentsOfRoster(segs: seq<Segment>)
    requires Renderable(segs)
    ensures Segments(RosterText(segs)) == segs
  {
    if segs != [] {
      var tail := RosterText(segs[1..]);
      var s := RosterText(segs);
      assert s == LegText(segs[0]) + tail;
      assert segs == [segs[0]] + segs[1..];
      assert tail == "" <==> segs[1..] == [];
      hide *;
      SegmentsOfRoster(segs[1..]);
      FirstLeg(segs[0], tail);
      SegmentsAtStart(s);
      if tail != "" {
        SegmentsAtStart(tail);
      }
    }
  }

  // An unnumbered swimmer `Surname, First YR` is found with its year.

  lemma SpanNameCharsTo(s: string, j: nat)
    requires j < |s| && (forall k :: 0 <= k < j ==> IsNameChar(s[k])) && s[j] == ','
    ensures SpanNameChars(s, 0) == j
  {
  }

  lemma SpanLettersTo(s: string, i: nat, j: nat)
    requires i <= j < |s| && (forall k :: i <= k < j ==> IsLetter(s[k])) && IsSpace(s[j])
    ensures SpanLetters(s, i) == j
  {
  }

  lemma SpanSpacesOne(s: string, i: nat)
    requires i + 1 < |s| && IsSpace(s[i]) && !IsSpace(s[i + 1])
    ensures SpanSpaces(s, i) == i + 1
  {
  }

  lemma InitialAndYearOf(s: string, l: nat)
    requires l + 3 <= |s| && IsSpace(s[l]) && IsYearOrAge(s[l + 1..l + 3])
    ensures InitialAndYear(s, l) == Some((l, l + 1))
  {
    var y := s[l + 1..l + 3];
    assert s[l + 1] == y[0] && s[l + 2] == y[1];
    SpanSpacesOne(s, l);
    if IsUpper(s[l + 1]) {
      assert SpanSpaces(s, l + 2) == l + 2;
    }
  }

  lemma SurnameFirstOf(s: string, c: nat, l: nat)
    requires 0 < c && c + 2 < l < |s| && (forall k :: 0 <= k < c ==> IsNameChar(s[k]))
    requires s[c] == ',' && IsSpace(s[c + 1]) && (forall k :: c + 2 <= k < l ==> IsLetter(s[k])) && IsSpace(s[l])
    ensures SurnameFirst(s, 0) == Some(l)
  {
    SpanNameCharsTo(s, c);
    SpanSpacesOne(s, c + 1);
    SpanLettersTo(s, c + 2, l);
  }

  /** `Surname, First YR...`: the first match is the name and the year code. */
  lemma FallbackOf(surname: string, first: string, year: string, rest: string)
    requires surname != "" && (forall k :: 0 <= k < |surname| ==> IsNameChar(surname[k]))
    requires first != "" && AllLetters(first) && IsYearOrAge(year)
    ensures var name := surname + ", " + first;
      FallbackMatches(name + " " + year + rest, 0) ==
        [(name, year)] + FallbackMatches(name + " " + year + rest, |name| + 3)
  {
    var name := surname + ", " + first;
    var s := name + " " + year + rest;
    var c := |surname|;
    var l := |name|;
    assert s[c] == ',' && s[c + 1] == ' ' && s[l] == ' ';
    forall k | 0 <= k < c ensures IsNameChar(s[k]) { assert s[k] == surname[k]; }
    forall k | c + 2 <= k < l ensures IsLetter(s[k]) { assert s[k] == first[k - c - 2]; }
    assert s[l + 1..l + 3] == year;
    assert s[0..l] == name;
    hide *;
    SurnameFirstOf(s, c, l);
    InitialAndYearOf(s, l);
    FallbackAtStep(s, 0, l, l, l + 1);
    FallbackMatchesStep(s, 0);
  }

  lemma FallbackAtStep(s: string, p: nat, l: nat, e: nat, y: nat)
    requires p <= |s| && SurnameFirst(s, p) == Some(l) && InitialAndYear(s, l) == Some((e, y))
    ensures FallbackAt(s, p) == Some((s[p..e], s[y..y + 2], y + 2))
  {
  }

  lemma FallbackMatchesStep(s: string, p: nat)
    requires p < |s| && FallbackAt(s, p).Some?
    ensures FallbackMatches(s, p) ==
      [(FallbackAt(s, p).value.0, FallbackAt(s, p).value.1)] + FallbackMatches(s, FallbackAt(s, p).value.2)
  {
  }
}
