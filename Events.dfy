/**
 * Event headers and the line classifiers the block parser tries before it reads
 * a line as a result: round markers, page furniture, DQ-reason lines and
 * continued-event headers.
 */
module Events {
  import opened Wrappers
  import opened Text
  import opened Scan
  import opened Times

  /** What `parse_event_header` returns. */
  datatype EventHeader = EventHeader(
    number: nat,
    gender: string,
    distance: nat,
    stroke: string,
    isRelay: bool,
    isDiving: bool,
    round: Option<string>,
    name: string)

  // -------------------------------------------------------------------------
  // The shared prefix `(?:#|Event\s+)(\d+)\s+(Women|Men)`
  // -------------------------------------------------------------------------

  function EventMark(t: string): Option<string> {
    if StartsWith(t, "#") then Some(t[1..])
    else
      var r :- Lit(t, "Event");
      Gap(r)
  }

  function Gender(s: string): (r: Option<(string, string)>)
    ensures r.Some? ==> r.value.0 == "Women" || r.value.0 == "Men"
  {
    if StartsWith(s, "Women") then Some(("Women", s[5..]))
    else if StartsWith(s, "Men") then Some(("Men", s[3..]))
    else None
  }

  /** The event number, the gender and the rest of the line after the gender. */
  function EventStart(t: string): (r: Option<(nat, string, string)>)
    ensures r.Some? ==> r.value.1 == "Women" || r.value.1 == "Men"
  {
    var r1 :- EventMark(t);
    var num :- Number(r1);
    var r2 :- Gap(num.1);
    var g :- Gender(r2);
    Some((DigitsValue(num.0), g.0, g.1))
  }

  // -------------------------------------------------------------------------
  // The stroke descriptor of a swimming header
  // -------------------------------------------------------------------------

  /** What `.+` reaches: the text up to the first line break. */
  function TakeLine(s: string): (r: string)
    ensures |r| <= |s|
    ensures Lacks(s, '\n') ==> r == s
  {
    if s == "" || s[0] == '\n' then "" else [s[0]] + TakeLine(s[1..])
  }

  /** `re.sub(r'\s*Swim-[Oo]ff', '', s)`. */
  function RemoveSwimOff(s: string): (r: string)
    ensures |r| <= |s|
    decreases |s|
  {
    if s == "" then ""
    else
      var rest := Spaces(s);
      if StartsWith(rest, "Swim-off") || StartsWith(rest, "Swim-Off") then RemoveSwimOff(rest[8..])
      else [s[0]] + RemoveSwimOff(s[1..])
  }

  /** The full names the abbreviated stroke words are given; other text passes through. */
  function NormalizeStroke(s: string, isRelay: bool): string {
    if s == "Free" || s == "Freestyle" then "Freestyle"
    else if s == "Back" then "Backstroke"
    else if s == "Breast" then "Breaststroke"
    else if s == "Fly" || s == "Butterfly" then "Butterfly"
    else if s == "Medley" then (if isRelay then "Medley" else "IM")
    else s
  }

  datatype Descriptor = Descriptor(stroke: string, isRelay: bool, round: Option<string>)

  /** The stroke, relay flag and round read from the text after "Yard"/"Meter". */
  function ParseDescriptor(part: string): Descriptor {
    var isRelay := Contains(part, "Relay");
    var s := Strip(ReplaceAll(part, " Relay", ""));
    if Contains(s, "Time Trial") then
      Descriptor(NormalizeStroke(Strip(ReplaceAll(s, " Time Trial", "")), isRelay), isRelay, Some("Time Trial"))
    else if Contains(s, "Swim-off") || Contains(s, "Swim-Off") then
      Descriptor(NormalizeStroke(Strip(RemoveSwimOff(s)), isRelay), isRelay, Some("Swim-off"))
    else
      Descriptor(NormalizeStroke(s, isRelay), isRelay, None)
  }

  // -------------------------------------------------------------------------
  // The three header shapes
  // -------------------------------------------------------------------------

  function Unit(s: string): Option<string> {
    if StartsWith(s, "Yard") then Lit(s, "Yard") else Lit(s, "Meter")
  }

  /**
   * `\s+(\d+)\s+(?:Yard|Meter)\s+(.+)` after the gender. The line is stripped, so
   * when the last gap reaches the end of the line `.+` has nothing left to take.
   */
  function SwimmingHeader(number: nat, gender: string, rest: string): (r: Option<EventHeader>)
    ensures r.Some? ==> r.value.gender == gender && !r.value.isDiving
    ensures r.Some? ==> StartsWith(r.value.name, gender + " ")
  {
    var r1 :- Gap(rest);
    var dist :- Number(r1);
    var r2 :- Gap(dist.1);
    var r3 :- Unit(r2);
    var r4 :- Gap(r3);
    var part := TakeLine(r4);
    if part == "" then None
    else Some(SwimmingEvent(number, gender, DigitsValue(dist.0), ParseDescriptor(Strip(part))))
  }

  /** The header of a swimming event; its name is "<gender> <distance> <stroke>[ Relay]". */
  function SwimmingEvent(number: nat, gender: string, distance: nat, d: Descriptor): (h: EventHeader)
    ensures h.gender == gender && !h.isDiving && StartsWith(h.name, gender + " ")
  {
    var name := gender + " " + (NatToString(distance) + " " + d.stroke + RelayWord(d.isRelay));
    assert name[..|gender + " "|] == gender + " ";
    EventHeader(number, gender, distance, d.stroke, d.isRelay, false, d.round, name)
  }

  /** `\s+(\d+)\s+mtr\s+Diving` after the gender; the name keeps the board's digits as written. */
  function DivingHeader(number: nat, gender: string, rest: string): (r: Option<EventHeader>)
    ensures r.Some? ==> r.value.gender == gender && r.value.isDiving && !r.value.isRelay
    ensures r.Some? ==> r.value.round == None && r.value.stroke == "Diving"
    ensures r.Some? ==> StartsWith(r.value.name, gender + " ")
  {
    var r1 :- Gap(rest);
    var board :- Number(r1);
    var r2 :- Gap(board.1);
    var r3 :- Lit(r2, "mtr");
    var r4 :- Gap(r3);
    if StartsWith(r4, "Diving") then
      Some(EventHeader(number, gender, DigitsValue(board.0), "Diving", false, true, None,
        gender + " " + board.0 + "m Diving"))
    else None
  }

  /** `\s+Platform\s+Diving` after the gender. */
  function PlatformHeader(number: nat, gender: string, rest: string): (r: Option<EventHeader>)
    ensures r.Some? ==> r.value.gender == gender && r.value.isDiving && !r.value.isRelay
    ensures r.Some? ==> r.value.round == None && r.value.stroke == "Diving" && r.value.distance == 0
    ensures r.Some? ==> StartsWith(r.value.name, gender + " ")
  {
    var r1 :- Gap(rest);
    var r2 :- Lit(r1, "Platform");
    var r3 :- Gap(r2);
    if StartsWith(r3, "Diving") then
      Some(EventHeader(number, gender, 0, "Diving", false, true, None, gender + " Platform Diving"))
    else None
  }

  /** `parse_event_header`: the swimming shape, then diving, then platform diving. */
  function ParseEventHeader(line: string): (r: Option<EventHeader>)
    ensures r.Some? ==> r.value.gender == "Women" || r.value.gender == "Men"
    ensures r.Some? && r.value.isDiving ==> !r.value.isRelay && r.value.round == None && r.value.stroke == "Diving"
    ensures r.Some? ==> StartsWith(r.value.name, r.value.gender + " ")
  {
    var start :- EventStart(Strip(line));
    var swim := SwimmingHeader(start.0, start.1, start.2);
    if swim.Some? then swim
    else
      var dive := DivingHeader(start.0, start.1, start.2);
      if dive.Some? then dive
      else PlatformHeader(start.0, start.1, start.2)
  }

  /** `_CONT_EVENT_RE`: the event number of a "(Event 3 Women ..." line. */
  function ContinuedEvent(line: string): Option<nat> {
    var r :- Lit(line, "(");
    var start :- EventStart(r);
    Some(start.0)
  }

  // -------------------------------------------------------------------------
  // Round markers (`_ROUND_PATTERNS`, `detect_round`)
  // -------------------------------------------------------------------------

  /** A case-insensitive prefix test against a lower-case word. */
  predicate StartsWithCI(s: string, word: string) {
    |word| <= |s| && Lower(s[..|word|]) == word
  }

  /** `^[ABC]\s*-\s*Final`, ignoring case. */
  predicate IsFinalMarker(t: string) {
    t != "" && ToLower(t[0]) in {'a', 'b', 'c'} &&
    var r := Spaces(t[1..]);
    StartsWith(r, "-") && StartsWithCI(Spaces(r[1..]), "final")
  }

  /** `^Timed\s+Finals`, ignoring case. */
  predicate IsTimedFinals(t: string) {
    StartsWithCI(t, "timed") &&
    match Gap(t[5..])
    case Some(r) => StartsWithCI(r, "finals")
    case None => false
  }

  /** `detect_round`: the round a section marker line opens. */
  function DetectRound(line: string): (r: Option<string>)
    ensures r == None || r == Some("Finals") || r == Some("Prelim")
  {
    var t := Strip(line);
    if IsFinalMarker(t) then Some("Finals")
    else if StartsWithCI(t, "prelim") then Some("Prelim")
    else if StartsWithCI(t, "consolation") then Some("Finals")
    else if IsTimedFinals(t) then Some("Finals")
    else None
  }

  // -------------------------------------------------------------------------
  // Page furniture (`_SKIP_PATTERNS`, `is_header_line`)
  // -------------------------------------------------------------------------

  /**
   * One element of a skip pattern. `Word` is literal text matched ignoring case
   * (written in lower case), `Blanks(true)` is `\s+`, `Blanks(false)` is `\s*`.
   * In every pattern a `Blanks` is followed by a `Word` or a `Digit`, neither of
   * which can start with whitespace, so the greedy run of blanks is the only one
   * that can lead to a match.
   */
  datatype Piece = Word(lower: string) | Blanks(required: bool) | Digit

  datatype SkipPattern = SkipPattern(anchored: bool, pieces: seq<Piece>)

  function Search(ps: seq<Piece>): SkipPattern { SkipPattern(false, ps) }

  function Anchored(ps: seq<Piece>): SkipPattern { SkipPattern(true, ps) }

  /** `Name\s+(?:Y\s*r|Age)` is listed as its two alternatives. */
  const SkipPatterns: seq<SkipPattern> := [
    Search([Word("hy-tek")]),
    Search([Word("meet manager")]),
    Search([Word("page"), Blanks(true), Digit]),
    Search([Word("results"), Blanks(false), Word("-")]),
    Search([Word("site license")]),
    Search([Word("aquatic center")]),
    Anchored([Digit, Digit, Digit, Digit, Word("-"), Digit, Digit, Digit, Digit]),
    Anchored([Word("team"), Blanks(true), Word("r"), Blanks(false), Word("elay")]),
    Anchored([Word("name"), Blanks(true), Word("y"), Blanks(false), Word("r")]),
    Anchored([Word("name"), Blanks(true), Word("age")]),
    Search([Word("scores"), Blanks(false), Word("-")]),
    Search([Word("team rankings")]),
    Anchored([Word("south carolina")]),
    Anchored([Word("georgia institute")]),
    Anchored([Word("seed"), Blanks(true), Word("time")]),
    Anchored([Word("finals"), Blanks(true), Word("time")]),
    Anchored([Blanks(false), Digit, Digit, Digit, Digit, Blanks(true), Word("gt"), Blanks(true), Word("the")]),
    Anchored([Word("friday"), Blanks(true), Word("round")]),
    Anchored([Word("saturday"), Blanks(true), Word("round")]),
    Search([Word("uga"), Blanks(true), Word("fall"), Blanks(true), Word("invitational")]),
    Search([Word("ramsey"), Blanks(true), Word("center")]),
    Anchored([Word("mcauley")])
  ]

  /** Whether the pieces match at the start of `s`. */
  predicate MatchesAt(s: string, ps: seq<Piece>)
    decreases |ps|
  {
    if ps == [] then true
    else
      match ps[0]
      case Word(w) => StartsWithCI(s, w) && MatchesAt(s[|w|..], ps[1..])
      case Blanks(required) =>
        var k := SpanSpaces(s, 0);
        (k > 0 || !required) && MatchesAt(s[k..], ps[1..])
      case Digit => s != "" && IsDigit(s[0]) && MatchesAt(s[1..], ps[1..])
  }

  /** `re.search`: the pieces match somewhere in `s`. */
  predicate MatchesSomewhere(s: string, ps: seq<Piece>)
    decreases |s|
  {
    MatchesAt(s, ps) || (s != "" && MatchesSomewhere(s[1..], ps))
  }

  predicate Found(t: string, p: SkipPattern) {
    if p.anchored then MatchesAt(t, p.pieces) else MatchesSomewhere(t, p.pieces)
  }

  predicate AnySkip(t: string, ps: seq<SkipPattern>) {
    exists i :: 0 <= i < |ps| && Found(t, ps[i])
  }

  predicate IsClockChar(c: char) { IsDigit(c) || c == ':' || c == '.' }

  function SpanClock(s: string, i: nat): (j: nat)
    requires i <= |s|
    ensures i <= j <= |s|
    ensures forall k :: i <= k < j ==> IsClockChar(s[k])
    ensures j == |s| || !IsClockChar(s[j])
    decreases |s| - i
  {
    if i < |s| && IsClockChar(s[i]) then SpanClock(s, i + 1) else i
  }

  const StandardCodes: set<string> := {"A", "B", "NCAA", "RELB", "RELA"}

  /** `^[\d:\.]+\s+(?:A|B|NCAA|RELB|RELA)$`: a time followed by a standard's code. */
  predicate IsStandardLine(t: string) {
    var i := SpanClock(t, 0);
    i > 0 &&
    match Gap(t[i..])
    case Some(code) => code in StandardCodes
    case None => false
  }

  /** What follows the `\d+\.\d+` of a cut line and its gap. */
  function CutCode(t: string): Option<string> {
    var whole :- Number(t);
    var r :- Lit(whole.1, ".");
    var frac :- Number(r);
    Gap(frac.1)
  }

  /** `^\d+\.\d+\s+[A-Z]+$` on a line shorter than 25 characters. */
  predicate IsCutLine(t: string) {
    |t| < 25 &&
    match CutCode(t)
    case Some(code) => code != "" && AllUpper(code)
    case None => false
  }

  /** `is_header_line`: blank lines, page furniture and time-standard lines are skipped. */
  predicate IsHeaderLine(line: string) {
    var t := Strip(line);
    t == "" || AnySkip(t, SkipPatterns) || IsStandardLine(t) || IsCutLine(t)
  }

  // -------------------------------------------------------------------------
  // DQ reasons (`_DQ_KEYWORDS`, `is_dq_reason_line`)
  // -------------------------------------------------------------------------

  const DqKeywords: seq<string> := [
    "cycle:", "stroke:", "turn:", "start:", "finish:",
    "pull", "kick", "touch", "delay", "false",
    "alternating", "scissors", "flutter", "dolphin",
    "not simultaneous", "did not", "early", "late",
    "one hand", "non-simultaneous", "past vertical"
  ]

  /** `is_dq_reason_line`: some keyword occurs in the stripped, lower-cased line. */
  predicate IsDqReasonLine(line: string) {
    var lower := Lower(Strip(line));
    exists i :: 0 <= i < |DqKeywords| && Contains(lower, DqKeywords[i])
  }

  // -------------------------------------------------------------------------
  // Headers as meet files print them, read back
  // -------------------------------------------------------------------------

  /** A one-word stroke such as "Free", "Breaststroke" or "IM". */
  predicate StrokeWord(w: string) {
    w != "" && AllLetters(w) && Lacks(w, 'R') && Lacks(w, 'S') && Lacks(w, 'T')
  }

  predicate RoundSuffix(suffix: string) {
    suffix == "" || suffix == " Time Trial" || suffix == " Swim-off" || suffix == " Swim-Off"
  }

  function RoundOf(suffix: string): Option<string> {
    if suffix == "" then None
    else if suffix == " Time Trial" then Some("Time Trial")
    else Some("Swim-off")
  }

  function RelayWord(isRelay: bool): string {
    if isRelay then " Relay" else ""
  }

  /** What follows the gender in a swimming header: " 200 Yard Breast Relay". */
  function SwimmingTail(distance: nat, unit: string, part: string): string {
    " " + NatToString(distance) + " " + unit + " " + part
  }

  /** "#12 Women 200 Yard Breast Relay Time Trial" and its variants. */
  function SwimmingHeaderText(mark: string, number: nat, gender: string, distance: nat, unit: string,
                              word: string, isRelay: bool, suffix: string): string {
    mark + NatToString(number) + " " + gender + SwimmingTail(distance, unit, word + RelayWord(isRelay) + suffix)
  }

  lemma EventMarkOf(mark: string, after: string)
    requires mark == "#" || mark == "Event "
    requires after != "" && !IsSpace(after[0])
    ensures EventMark(mark + after) == Some(after)
  {
    var t := mark + after;
    if mark == "#" {
      assert t[1..] == after;
    } else {
      assert t[0] == 'E';
      LitOf("Event", " " + after);
      assert t == "Event" + (" " + after);
      GapOf(after);
    }
  }

  lemma GenderOf(g: string, tail: string)
    requires g == "Women" || g == "Men"
    ensures Gender(g + tail) == Some((g, tail))
  {
    if g == "Women" {
      assert (g + tail)[..5] == "Women";
      assert (g + tail)[5..] == tail;
    } else {
      assert (g + tail)[0] == 'M';
      assert (g + tail)[..3] == "Men";
      assert (g + tail)[3..] == tail;
    }
  }

  lemma EventStartSteps(t: string, after: string, num: string, x: string, y: string, g: string, tail: string)
    requires EventMark(t) == Some(after)
    requires Number(after) == Some((num, x))
    requires Gap(x) == Some(y)
    requires Gender(y) == Some((g, tail))
    ensures AllDigits(num) && EventStart(t) == Some((DigitsValue(num), g, tail))
  {
  }

  lemma EventStartOf(mark: string, n: nat, g: string, tail: string)
    requires mark == "#" || mark == "Event "
    requires g == "Women" || g == "Men"
    ensures EventStart(mark + NatToString(n) + " " + g + tail) == Some((n, g, tail))
  {
    var num := NatToString(n);
    var t := mark + num + " " + g + tail;
    var after := num + (" " + (g + tail));
    assert t == mark + after;
    EventMarkOf(mark, after);
    NumberOf(num, " " + (g + tail));
    GapOf(g + tail);
    GenderOf(g, tail);
    NatToStringValue(n);
    EventStartSteps(t, after, num, " " + (g + tail), g + tail, g, tail);
  }

  lemma UnitOf(unit: string, b: string)
    requires unit == "Yard" || unit == "Meter"
    ensures Unit(unit + b) == Some(b)
  {
    if unit == "Yard" {
      LitOf("Yard", b);
    } else {
      assert (unit + b)[0] == 'M';
      LitOf("Meter", b);
    }
  }

  lemma SwimmingSteps(number: nat, g: string, rest: string, r1: string, num: string, x: string,
                      r2: string, r3: string, part: string)
    requires Gap(rest) == Some(r1)
    requires Number(r1) == Some((num, x))
    requires Gap(x) == Some(r2)
    requires Unit(r2) == Some(r3)
    requires Gap(r3) == Some(part)
    requires part != "" && TakeLine(part) == part
    ensures AllDigits(num)
    ensures SwimmingHeader(number, g, rest) == Some(SwimmingEvent(number, g, DigitsValue(num), ParseDescriptor(Strip(part))))
  {
  }

  /** The part after the gender of a swimming header, read back. */
  lemma SwimmingBodyOf(number: nat, g: string, d: nat, unit: string, part: string)
    requires unit == "Yard" || unit == "Meter"
    requires part != "" && !IsSpace(part[0]) && Lacks(part, '\n')
    ensures SwimmingHeader(number, g, " " + NatToString(d) + " " + unit + " " + part)
         == Some(SwimmingEvent(number, g, d, ParseDescriptor(Strip(part))))
  {
    var num := NatToString(d);
    var rest := " " + NatToString(d) + " " + unit + " " + part;
    var r1 := num + (" " + (unit + (" " + part)));
    assert rest == " " + r1;
    GapOf(r1);
    NumberOf(num, " " + (unit + (" " + part)));
    GapOf(unit + (" " + part));
    UnitOf(unit, " " + part);
    GapOf(part);
    NatToStringValue(d);
    SwimmingSteps(number, g, rest, r1, num, " " + (unit + (" " + part)), unit + (" " + part), " " + part, part);
  }

  lemma RemoveSwimOffStep(s: string)
    requires s != "" && !IsSpace(s[0]) && s[0] != 'S'
    ensures RemoveSwimOff(s) == [s[0]] + RemoveSwimOff(s[1..])
  {
    assert Spaces(s) == s by {
      assert SpanSpaces(s, 0) == 0;
    }
    assert !StartsWith(s, "Swim-off") && !StartsWith(s, "Swim-Off") by {
      if |s| >= 8 {
        assert s[..8][0] == s[0];
      }
    }
  }

  lemma {:induction false} RemoveSwimOffAfterWord(a: string, b: string)
    requires NoSpace(a) && Lacks(a, 'S')
    ensures RemoveSwimOff(a + b) == a + RemoveSwimOff(b)
    decreases |a|
  {
    if a == "" {
      assert a + b == b;
    } else {
      var s := a + b;
      assert s[0] == a[0];
      RemoveSwimOffStep(s);
      assert s[1..] == a[1..] + b;
      RemoveSwimOffAfterWord(a[1..], b);
      HeadTail(a, RemoveSwimOff(b));
    }
  }

  lemma SwimOffRemoved(suffix: string)
    requires suffix == " Swim-off" || suffix == " Swim-Off"
    ensures RemoveSwimOff(suffix) == ""
  {
    assert SpanSpaces(suffix, 1) == 1;
    assert Spaces(suffix) == suffix[1..];
  }

  /** What the descriptor proofs need to know about the round suffixes. */
  lemma SuffixChars(suffix: string)
    requires RoundSuffix(suffix)
    ensures Lacks(suffix, 'R') && Lacks(suffix, '\n')
    ensures suffix != " Time Trial" ==> Lacks(suffix, 'T')
    ensures suffix != "" ==> suffix[0] == ' ' && !IsSpace(suffix[|suffix| - 1])
  {
  }

  lemma ContainsAfter(a: string, b: string, sub: string, i: nat)
    requires i + |sub| <= |b| && b[i..i + |sub|] == sub
    ensures Contains(a + b, sub)
  {
    assert (a + b)[|a| + i..|a| + i + |sub|] == b[i..i + |sub|];
    ContainsAt(a + b, sub, |a| + i);
  }

  lemma RelayFlagOf(word: string, isRelay: bool, suffix: string)
    requires StrokeWord(word) && RoundSuffix(suffix)
    ensures Contains(word + RelayWord(isRelay) + suffix, "Relay") == isRelay
  {
    var desc := word + RelayWord(isRelay) + suffix;
    if isRelay {
      assert desc == word + (" Relay" + suffix);
      assert (" Relay" + suffix)[1..6] == "Relay";
      ContainsAfter(word, " Relay" + suffix, "Relay", 1);
    } else {
      SuffixChars(suffix);
      assert desc == word + suffix;
      assert Lacks(desc, 'R');
      LacksNotContains(desc, "Relay", 0);
    }
  }

  lemma RelayReplacedOf(word: string, isRelay: bool, suffix: string)
    requires StrokeWord(word) && RoundSuffix(suffix)
    ensures ReplaceAll(word + RelayWord(isRelay) + suffix, " Relay", "") == word + suffix
  {
    SuffixChars(suffix);
    LacksNotContains(suffix, " Relay", 1);
    var tail := RelayWord(isRelay) + suffix;
    ReplaceAllAfterWord(word, tail, " Relay", "");
    EmptyLeft(suffix);
    if isRelay {
      ReplaceAllLeading(" Relay", suffix, "");
    }
    Assoc(word, RelayWord(isRelay), suffix);
  }

  lemma WordSuffixStripped(word: string, suffix: string)
    requires StrokeWord(word) && RoundSuffix(suffix)
    ensures Strip(word + suffix) == word + suffix
  {
    SuffixChars(suffix);
    var s := word + suffix;
    assert s[0] == word[0];
    if suffix == "" {
      assert s == word;
    } else {
      assert s[|s| - 1] == suffix[|suffix| - 1];
    }
    StripKeeps(s);
  }

  lemma RelayRemovedOf(word: string, isRelay: bool, suffix: string)
    requires StrokeWord(word) && RoundSuffix(suffix)
    ensures Strip(ReplaceAll(word + RelayWord(isRelay) + suffix, " Relay", "")) == word + suffix
  {
    RelayReplacedOf(word, isRelay, suffix);
    WordSuffixStripped(word, suffix);
  }

  lemma PlainRound(word: string)
    requires StrokeWord(word)
    ensures !Contains(word, "Time Trial") && !Contains(word, "Swim-off") && !Contains(word, "Swim-Off")
  {
    LacksNotContains(word, "Time Trial", 0);
    LacksNotContains(word, "Swim-off", 0);
    LacksNotContains(word, "Swim-Off", 0);
  }

  lemma TimeTrialRound(word: string)
    requires StrokeWord(word)
    ensures Contains(word + " Time Trial", "Time Trial")
    ensures Strip(ReplaceAll(word + " Time Trial", " Time Trial", "")) == word
  {
    assert " Time Trial"[1..11] == "Time Trial";
    ContainsAfter(word, " Time Trial", "Time Trial", 1);
    ReplaceAllAfterWord(word, " Time Trial", " Time Trial", "");
    ReplaceAllLeading(" Time Trial", "", "");
    assert " Time Trial" + "" == " Time Trial";
    assert word + "" == word;
  }

  lemma SwimOffRound(word: string, suffix: string)
    requires StrokeWord(word)
    requires suffix == " Swim-off" || suffix == " Swim-Off"
    ensures !Contains(word + suffix, "Time Trial")
    ensures Contains(word + suffix, "Swim-off") || Contains(word + suffix, "Swim-Off")
    ensures Strip(RemoveSwimOff(word + suffix)) == word
  {
    SuffixChars(suffix);
    assert Lacks(word + suffix, 'T');
    LacksNotContains(word + suffix, "Time Trial", 0);
    ContainsAfter(word, suffix, suffix[1..], 1);
    RemoveSwimOffAfterWord(word, suffix);
    SwimOffRemoved(suffix);
    assert word + "" == word;
  }

  lemma RoundRemovedOf(word: string, suffix: string, isRelay: bool)
    requires StrokeWord(word) && RoundSuffix(suffix)
    ensures ParseDescriptor(word + RelayWord(isRelay) + suffix)
         == Descriptor(NormalizeStroke(word, isRelay), isRelay, RoundOf(suffix))
  {
    RelayFlagOf(word, isRelay, suffix);
    RelayRemovedOf(word, isRelay, suffix);
    if suffix == "" {
      assert word + suffix == word;
      PlainRound(word);
    } else if suffix == " Time Trial" {
      TimeTrialRound(word);
    } else {
      SwimOffRound(word, suffix);
    }
  }

  lemma PartChars(word: string, isRelay: bool, suffix: string)
    requires StrokeWord(word) && RoundSuffix(suffix)
    ensures var part := word + RelayWord(isRelay) + suffix;
      part != "" && !IsSpace(part[0]) && !IsSpace(part[|part| - 1]) && Lacks(part, '\n')
  {
    SuffixChars(suffix);
    var part := word + RelayWord(isRelay) + suffix;
    assert part[0] == word[0];
    if suffix != "" {
      LastOf(word + RelayWord(isRelay), suffix);
    } else if isRelay {
      assert part == word + " Relay";
      LastOf(word, " Relay");
    } else {
      assert part == word;
    }
  }

  lemma SwimmingParsed(line: string, start: (nat, string, string), h: EventHeader)
    requires EventStart(Strip(line)) == Some(start)
    requires SwimmingHeader(start.0, start.1, start.2) == Some(h)
    ensures ParseEventHeader(line) == Some(h)
  {
  }

  lemma SwimmingTextStripped(mark: string, n: nat, g: string, d: nat, unit: string,
                             word: string, isRelay: bool, suffix: string)
    requires mark == "#" || mark == "Event "
    requires StrokeWord(word) && RoundSuffix(suffix)
    ensures var line := SwimmingHeaderText(mark, n, g, d, unit, word, isRelay, suffix);
      Strip(line) == line
  {
    var part := word + RelayWord(isRelay) + suffix;
    var tail := SwimmingTail(d, unit, part);
    var line := SwimmingHeaderText(mark, n, g, d, unit, word, isRelay, suffix);
    PartChars(word, isRelay, suffix);
    assert line[0] == mark[0];
    LastOf(" " + NatToString(d) + " " + unit + " ", part);
    LastOf(mark + NatToString(n) + " " + g, tail);
    StripKeeps(line);
  }

  lemma SwimmingTextSplit(mark: string, n: nat, g: string, d: nat, unit: string,
                          word: string, isRelay: bool, suffix: string)
    ensures SwimmingHeaderText(mark, n, g, d, unit, word, isRelay, suffix)
         == mark + NatToString(n) + " " + g + SwimmingTail(d, unit, word + RelayWord(isRelay) + suffix)
    ensures SwimmingTail(d, unit, word + RelayWord(isRelay) + suffix)
         == " " + NatToString(d) + " " + unit + " " + (word + RelayWord(isRelay) + suffix)
  {
  }

  lemma SwimmingEventOf(n: nat, g: string, d: nat, stroke: string, isRelay: bool, round: Option<string>)
    ensures SwimmingEvent(n, g, d, Descriptor(stroke, isRelay, round))
         == EventHeader(n, g, d, stroke, isRelay, false, round, g + " " + NatToString(d) + " " + stroke + RelayWord(isRelay))
  {
  }

  /**
   * A swimming header reads back as its number, gender and distance, the
   * normalised stroke, the relay flag and the round named by its suffix.
   */
  lemma SwimmingHeaderRoundTrip(mark: string, n: nat, g: string, d: nat, unit: string,
                                word: string, isRelay: bool, suffix: string)
    requires mark == "#" || mark == "Event "
    requires g == "Women" || g == "Men"
    requires unit == "Yard" || unit == "Meter"
    requires StrokeWord(word) && RoundSuffix(suffix)
    ensures var stroke := NormalizeStroke(word, isRelay);
      ParseEventHeader(SwimmingHeaderText(mark, n, g, d, unit, word, isRelay, suffix))
      == Some(EventHeader(n, g, d, stroke, isRelay, false, RoundOf(suffix),
                          g + " " + NatToString(d) + " " + stroke + RelayWord(isRelay)))
  {
    hide *;
    var part := word + RelayWord(isRelay) + suffix;
    var tail := SwimmingTail(d, unit, part);
    var line := SwimmingHeaderText(mark, n, g, d, unit, word, isRelay, suffix);
    SwimmingTextSplit(mark, n, g, d, unit, word, isRelay, suffix);
    SwimmingTextStripped(mark, n, g, d, unit, word, isRelay, suffix);
    EventStartOf(mark, n, g, tail);
    PartChars(word, isRelay, suffix);
    SwimmingBodyOf(n, g, d, unit, part);
    StripKeeps(part);
    RoundRemovedOf(word, suffix, isRelay);
    SwimmingEventOf(n, g, d, NormalizeStroke(word, isRelay), isRelay, RoundOf(suffix));
    SwimmingParsed(line, (n, g, tail), SwimmingEvent(n, g, d, ParseDescriptor(part)));
  }

  /** "#15 Women 1 mtr Diving": the board is kept as written. */
  function DivingHeaderText(mark: string, number: nat, gender: string, board: string): string {
    mark + NatToString(number) + " " + gender + (" " + (board + " mtr Diving"))
  }

  function PlatformHeaderText(mark: string, number: nat, gender: string): string {
    mark + NatToString(number) + " " + gender + " Platform Diving"
  }

  lemma DivingParsed(line: string, start: (nat, string, string), h: EventHeader)
    requires EventStart(Strip(line)) == Some(start)
    requires SwimmingHeader(start.0, start.1, start.2) == None
    requires DivingHeader(start.0, start.1, start.2) == Some(h)
    ensures ParseEventHeader(line) == Some(h)
  {
  }

  lemma PlatformParsed(line: string, start: (nat, string, string), h: EventHeader)
    requires EventStart(Strip(line)) == Some(start)
    requires SwimmingHeader(start.0, start.1, start.2) == None
    requires DivingHeader(start.0, start.1, start.2) == None
    requires PlatformHeader(start.0, start.1, start.2) == Some(h)
    ensures ParseEventHeader(line) == Some(h)
  {
  }

  lemma UnitFails(s: string)
    requires s != "" && s[0] != 'Y' && s[0] != 'M'
    ensures Unit(s) == None
  {
    if |s| >= 4 {
      assert s[..4][0] == s[0];
    }
    if |s| >= 5 {
      assert s[..5][0] == s[0];
    }
  }

  lemma DivingNotSwimming(n: nat, g: string, board: string, after: string)
    requires board != "" && AllDigits(board)
    requires after != "" && after[0] == 'm'
    ensures SwimmingHeader(n, g, " " + (board + (" " + after))) == None
  {
    GapOf(board + (" " + after));
    NumberOf(board, " " + after);
    GapOf(after);
    UnitFails(after);
  }

  lemma DivingSteps(n: nat, g: string, rest: string, r1: string, board: string, x: string,
                    r2: string, r3: string, r4: string)
    requires Gap(rest) == Some(r1)
    requires Number(r1) == Some((board, x))
    requires Gap(x) == Some(r2)
    requires Lit(r2, "mtr") == Some(r3)
    requires Gap(r3) == Some(r4)
    requires StartsWith(r4, "Diving")
    ensures AllDigits(board)
    ensures DivingHeader(n, g, rest)
         == Some(EventHeader(n, g, DigitsValue(board), "Diving", false, true, None, g + " " + board + "m Diving"))
  {
  }

  lemma DivingWords()
    ensures " mtr Diving" == " " + "mtr Diving"
    ensures "mtr Diving" == "mtr" + " Diving"
    ensures " Diving" == " " + "Diving"
    ensures StartsWith("Diving", "Diving")
  {
  }

  lemma DivingBodyOf(n: nat, g: string, board: string)
    requires board != "" && AllDigits(board)
    ensures SwimmingHeader(n, g, " " + (board + " mtr Diving")) == None
    ensures DivingHeader(n, g, " " + (board + " mtr Diving"))
         == Some(EventHeader(n, g, DigitsValue(board), "Diving", false, true, None, g + " " + board + "m Diving"))
  {
    DivingWords();
    hide SwimmingHeader, DivingHeader, Gap, Number, Lit, StartsWith, Unit;
    DivingNotSwimming(n, g, board, "mtr Diving");
    GapOf(board + (" " + "mtr Diving"));
    NumberOf(board, " " + "mtr Diving");
    GapOf("mtr Diving");
    LitOf("mtr", " Diving");
    GapOf("Diving");
    DivingSteps(n, g, " " + (board + " mtr Diving"), board + " mtr Diving", board, " mtr Diving",
                "mtr Diving", " Diving", "Diving");
  }

  lemma NoNumberAfterGap(n: nat, g: string, w: string)
    requires w != "" && !IsSpace(w[0]) && !IsDigit(w[0])
    ensures SwimmingHeader(n, g, " " + w) == None
    ensures DivingHeader(n, g, " " + w) == None
  {
    GapOf(w);
  }

  lemma PlatformSteps(n: nat, g: string, rest: string, r1: string, r2: string, r3: string)
    requires Gap(rest) == Some(r1)
    requires Lit(r1, "Platform") == Some(r2)
    requires Gap(r2) == Some(r3)
    requires StartsWith(r3, "Diving")
    ensures PlatformHeader(n, g, rest) == Some(EventHeader(n, g, 0, "Diving", false, true, None, g + " Platform Diving"))
  {
  }

  lemma PlatformBodyOf(n: nat, g: string)
    ensures SwimmingHeader(n, g, " Platform Diving") == None
    ensures DivingHeader(n, g, " Platform Diving") == None
    ensures PlatformHeader(n, g, " Platform Diving")
         == Some(EventHeader(n, g, 0, "Diving", false, true, None, g + " Platform Diving"))
  {
    assert StartsWith("Diving", "Diving");
    assert " Platform Diving" == " " + "Platform Diving";
    assert "Platform Diving" == "Platform" + " Diving";
    assert " Diving" == " " + "Diving";
    hide SwimmingHeader, DivingHeader, PlatformHeader, Gap, Number, Lit, StartsWith;
    NoNumberAfterGap(n, g, "Platform Diving");
    GapOf("Platform Diving");
    LitOf("Platform", " Diving");
    GapOf("Diving");
    PlatformSteps(n, g, " Platform Diving", "Platform Diving", " Diving", "Diving");
  }

  /** A springboard diving header: the board height is the distance, and the name keeps its digits. */
  lemma DivingHeaderRoundTrip(mark: string, n: nat, g: string, board: string)
    requires mark == "#" || mark == "Event "
    requires g == "Women" || g == "Men"
    requires board != "" && AllDigits(board)
    ensures ParseEventHeader(DivingHeaderText(mark, n, g, board))
         == Some(EventHeader(n, g, DigitsValue(board), "Diving", false, true, None, g + " " + board + "m Diving"))
  {
    var line := DivingHeaderText(mark, n, g, board);
    var tail := " " + (board + " mtr Diving");
    assert line[0] == mark[0];
    assert line[|line| - 1] == 'g';
    StripKeeps(line);
    EventStartOf(mark, n, g, tail);
    DivingBodyOf(n, g, board);
    hide Strip, EventStart, SwimmingHeader, DivingHeader, ParseEventHeader, DivingHeaderText;
    DivingParsed(line, (n, g, tail), EventHeader(n, g, DigitsValue(board), "Diving", false, true, None, g + " " + board + "m Diving"));
  }

  /** A platform diving header has distance 0. */
  lemma PlatformHeaderRoundTrip(mark: string, n: nat, g: string)
    requires mark == "#" || mark == "Event "
    requires g == "Women" || g == "Men"
    ensures ParseEventHeader(PlatformHeaderText(mark, n, g))
         == Some(EventHeader(n, g, 0, "Diving", false, true, None, g + " Platform Diving"))
  {
    var line := PlatformHeaderText(mark, n, g);
    var tail := " Platform Diving";
    assert line[0] == mark[0];
    assert line[|line| - 1] == 'g';
    StripKeeps(line);
    EventStartOf(mark, n, g, tail);
    PlatformBodyOf(n, g);
    hide Strip, EventStart, SwimmingHeader, DivingHeader, PlatformHeader, ParseEventHeader, PlatformHeaderText;
    PlatformParsed(line, (n, g, tail), EventHeader(n, g, 0, "Diving", false, true, None, g + " Platform Diving"));
  }

  // -------------------------------------------------------------------------
  // How the classifiers relate
  // -------------------------------------------------------------------------

  lemma StartsWithCIFirst(s: string, w: string)
    requires w != "" && StartsWithCI(s, w)
    ensures s != "" && ToLower(s[0]) == w[0]
  {
    assert Lower(s[..|w|])[0] == ToLower(s[..|w|][0]);
  }

  /** The first character, lower-cased, of every line `detect_round` accepts. */
  lemma RoundMarkerFirst(line: string)
    requires DetectRound(line).Some?
    ensures Strip(line) != "" && ToLower(Strip(line)[0]) in {'a', 'b', 'c', 'p', 't'}
  {
    var t := Strip(line);
    if IsFinalMarker(t) {
    } else if StartsWithCI(t, "prelim") {
      StartsWithCIFirst(t, "prelim");
    } else if StartsWithCI(t, "consolation") {
      StartsWithCIFirst(t, "consolation");
    } else {
      StartsWithCIFirst(t, "timed");
    }
  }

  lemma EventStartFirst(t: string)
    requires EventStart(t).Some?
    ensures t != "" && (t[0] == '#' || t[0] == 'E')
  {
    if !StartsWith(t, "#") {
      assert StartsWith(t, "Event");
      assert t[..5][0] == t[0];
    }
  }

  lemma HeaderFirst(line: string)
    requires ParseEventHeader(line).Some?
    ensures Strip(line) != "" && (Strip(line)[0] == '#' || Strip(line)[0] == 'E')
  {
    EventStartFirst(Strip(line));
  }

  lemma ContinuedFirst(line: string)
    requires ContinuedEvent(line).Some?
    ensures Strip(line) != "" && Strip(line)[0] == '('
  {
    assert line[..1] == "(";
    StripFirst(line);
  }

  /**
   * The block parser tests a line as a round marker before it tests it as a
   * continued or new event header; no line is more than one of the three.
   */
  lemma ClassifiersExclusive(line: string)
    ensures DetectRound(line).Some? ==> ParseEventHeader(line).None? && ContinuedEvent(line).None?
    ensures ContinuedEvent(line).Some? ==> ParseEventHeader(line).None?
  {
    if ParseEventHeader(line).Some? {
      HeaderFirst(line);
    }
    if DetectRound(line).Some? {
      RoundMarkerFirst(line);
    }
    if ContinuedEvent(line).Some? {
      ContinuedFirst(line);
    }
    hide *;
  }

  lemma SpanClockAt(t: string, n: nat)
    requires n <= |t| && (forall k :: 0 <= k < n ==> IsClockChar(t[k])) && (n == |t| || !IsClockChar(t[n]))
    ensures SpanClock(t, 0) == n
  {
  }

  lemma CodeChars(code: string)
    requires code in StandardCodes
    ensures code != "" && !IsSpace(code[0]) && !IsSpace(code[|code| - 1])
  {
  }

  lemma StandardLineText(time: string, code: string)
    requires time != "" && forall k :: 0 <= k < |time| ==> IsClockChar(time[k])
    requires code in StandardCodes
    ensures IsStandardLine(time + " " + code)
  {
    var line := time + " " + code;
    CodeChars(code);
    assert line[|time|] == ' ';
    assert forall k :: 0 <= k < |time| ==> line[k] == time[k];
    SpanClockAt(line, |time|);
    assert line[|time|..] == " " + code;
    GapOf(code);
  }

  lemma StandardLineStripped(time: string, code: string)
    requires time != "" && forall k :: 0 <= k < |time| ==> IsClockChar(time[k])
    requires code in StandardCodes
    ensures Strip(time + " " + code) == time + " " + code
  {
    var line := time + " " + code;
    CodeChars(code);
    assert line[0] == time[0];
    LastOf(time + " ", code);
    StripKeeps(line);
  }

  /** A time-standard line such as "1:36.24 A" or "16:25.29 NCAA" is skipped. */
  lemma StandardLineSkipped(time: string, code: string)
    requires time != "" && forall k :: 0 <= k < |time| ==> IsClockChar(time[k])
    requires code in StandardCodes
    ensures IsHeaderLine(time + " " + code)
  {
    StandardLineText(time, code);
    StandardLineStripped(time, code);
  }
}
