/**
 * Result lines: the individual grammars (invitational and dual meet), the relay
 * grammars and the diving grammar, each read over the words of the line.
 *
 * Every grammar has the same skeleton: a place (`\d+` or `---`), a middle field
 * matched lazily (`(.+?)`: name blob, school or team), and a fixed run of columns
 * at the end of the line.  A lazy middle followed by a fixed tail takes the
 * shortest middle for which the tail matches, that is the LONGEST tail that fits;
 * `TailFrom` computes exactly that and states it.
 */
module Results {
  import opened Wrappers
  import opened Text
  import opened Times
  import opened Events
  import opened NameRecovery
  import Roster

  /** A relay leg attached to a relay result. */
  datatype RelaySwimmer = RelaySwimmer(name: string, year: string, leg: nat, reaction: Option<int>)

  /** One result: the event's fields copied from its header, then what the line says. */
  datatype SwimResult = SwimResult(
    eventNumber: nat,
    eventName: string,
    eventGender: string,
    eventDistance: nat,
    eventStroke: string,
    isRelay: bool,
    place: Option<nat>,
    name: string,
    year: Option<string>,
    team: string,
    relayLetter: Option<string>,
    finalsTime: string,
    finalsSeconds: Option<int>,
    points: Option<int>,
    timeStandard: Option<string>,
    isExhibition: bool,
    isDq: bool,
    isScratch: bool,
    round: Option<string>,
    reactionTime: Option<int>,
    dqReason: Option<string>,
    splits: seq<int>,
    relaySwimmers: seq<RelaySwimmer>)

  /** The finals column as the grammars record it. */
  datatype Mark = Mark(finals: string, seconds: Option<int>, exhibition: bool, dq: bool, scratch: bool)

  /** A fresh result: no round, reaction, DQ reason, splits or swimmers yet. */
  function Make(e: EventHeader, relay: bool, place: Option<nat>, who: NameYearTeam, letter: Option<string>,
                m: Mark, points: Option<int>, standard: Option<string>): SwimResult
  {
    SwimResult(e.number, e.name, e.gender, e.distance, e.stroke, relay, place, who.name, who.year, who.team,
               letter, m.finals, m.seconds, points, standard, m.exhibition, m.dq, m.scratch,
               None, None, None, [], [])
  }

  /**
   * What every swimming grammar guarantees: the seconds are `time_to_seconds` of
   * the recorded finals, present exactly when the finals column is a time, and a
   * scratch carries no time.
   */
  predicate FinalsAgree(r: SwimResult) {
    r.finalsSeconds == TimeToSeconds(r.finalsTime)
    && (r.finalsSeconds.Some? <==> TimeShape(r.finalsTime))
    && (r.isScratch ==> !TimeShape(r.finalsTime))
  }

  /** The fields a result takes from its event header. */
  predicate FromEvent(r: SwimResult, e: EventHeader) {
    r.eventNumber == e.number && r.eventName == e.name && r.eventGender == e.gender
    && r.eventDistance == e.distance && r.eventStroke == e.stroke
    && r.round.None? && r.reactionTime.None? && r.dqReason.None? && r.splits == [] && r.relaySwimmers == []
  }

  // -------------------------------------------------------------------------
  // Columns
  // -------------------------------------------------------------------------

  /** `\d+|---` */
  predicate IsPlace(w: string) { w == "---" || (w != "" && AllDigits(w)) }

  /** `int(place_str) if place_str != '---' else None` */
  function PlaceValue(w: string): (p: Option<nat>)
    requires IsPlace(w)
    ensures p.None? <==> w == "---"
  {
    if w == "---" then None else Some(DigitsValue(w))
  }

  /** `\d{1,2}` */
  predicate IsAge(w: string) { 1 <= |w| <= 2 && AllDigits(w) }

  /** `\d+\.?\d*` */
  predicate IsPoints(w: string) {
    var i := SpanDigits(w, 0);
    0 < i && (i == |w| || (w[i] == '.' && AllDigits(w[i + 1..])))
  }

  /** `float(points_str) if points_str else None` */
  function Points(p: Option<string>): Option<int> {
    match p
    case None => None
    case Some(w) => ParseDecimal(w)
  }

  /** `[A-Z]+` */
  predicate IsStandard(w: string) { w != "" && AllUpper(w) }

  /** `[xXJ]?(?:\d+:)?\d+\.\d+`: a time with an exhibition or judge's mark. */
  predicate IsMarkedTime(w: string) {
    TimeShape(w) || (w != "" && (w[0] == 'x' || w[0] == 'X' || w[0] == 'J') && TimeShape(w[1..]))
  }

  /** The seed column of the invitational patterns 1, 2 and 2b. */
  predicate IsSeed(w: string) { IsMarkedTime(w) || w == "NT" || w == "NP" }

  /** The seed column of the invitational patterns 3 and 5. */
  predicate IsSeedOrScratch(w: string) { IsSeed(w) || w == "SCR" }

  /** The finals column of the invitational patterns 3 to 5. */
  predicate IsFinals(w: string) { IsMarkedTime(w) || w == "SCR" || w == "DQ" || w == "DFS" || w == "NS" }

  /** `(?:\d+:)?\d+\.\d+|DQ|SCR|NS`: the dual-meet time column. */
  predicate IsDualTime(w: string) { TimeShape(w) || w == "DQ" || w == "SCR" || w == "NS" }

  /** `(x|X)?` followed by a dual-meet time. */
  predicate IsMarkedDualTime(w: string) {
    IsDualTime(w) || (w != "" && (w[0] == 'x' || w[0] == 'X') && IsDualTime(w[1..]))
  }

  /** The time of a marked dual-meet time, without its mark. */
  function DualTimeText(w: string): string {
    if IsDualTime(w) || w == "" then w else w[1..]
  }

  /** `[A-D]` */
  predicate IsRelayLetter(w: string) { |w| == 1 && 'A' <= w[0] <= 'D' }

  // -------------------------------------------------------------------------
  // Fixed tails and the lazy middle
  // -------------------------------------------------------------------------

  /** The column runs that end a result line. */
  datatype Shape =
    | DqTime      // pattern 1: Seed DQ Time [Points]
    | DqOnly      // pattern 2: [Seed] DQ [DQ]
    | DfsOnly     // pattern 2b: [Seed] DFS
    | SeedFinals  // patterns 3 and 5: Seed Finals [Points]
    | FinalsOnly  // pattern 4: Finals [Points]
    | DualTail    // dual meet: [x]Time [Standard] [Points]
    | RelayTail   // invitational relay: Letter Seed [x]Finals [Points]
    | DivingTail  // diving: [x][J]Score [Points]

  function Longest(shape: Shape): nat {
    match shape
    case DqTime => 4
    case DqOnly => 3
    case DfsOnly => 2
    case SeedFinals => 3
    case FinalsOnly => 2
    case DualTail => 3
    case RelayTail => 4
    case DivingTail => 2
  }

  function Shortest(shape: Shape): (n: nat)
    ensures 1 <= n <= Longest(shape)
  {
    match shape
    case DqTime => 3
    case DqOnly => 1
    case DfsOnly => 1
    case SeedFinals => 2
    case FinalsOnly => 1
    case DualTail => 1
    case RelayTail => 3
    case DivingTail => 1
  }

  /** Whether the words `t` are exactly a run of the columns `shape` names. */
  predicate Fits(shape: Shape, t: seq<string>) {
    match shape
    case DqTime =>
      (|t| == 3 || (|t| == 4 && IsPoints(t[3]))) && IsSeed(t[0]) && t[1] == "DQ" && TimeShape(t[2])
    case DqOnly =>
      (|t| == 1 && t[0] == "DQ")
      || (|t| == 2 && (IsSeed(t[0]) || t[0] == "DQ") && t[1] == "DQ")
      || (|t| == 3 && IsSeed(t[0]) && t[1] == "DQ" && t[2] == "DQ")
    case DfsOnly =>
      (|t| == 1 && t[0] == "DFS") || (|t| == 2 && IsSeed(t[0]) && t[1] == "DFS")
    case SeedFinals =>
      (|t| == 2 || (|t| == 3 && IsPoints(t[2]))) && IsSeedOrScratch(t[0]) && IsFinals(t[1])
    case FinalsOnly =>
      (|t| == 1 || (|t| == 2 && IsPoints(t[1]))) && IsFinals(t[0])
    case DualTail =>
      1 <= |t| <= 3 && IsMarkedDualTime(t[0])
      && (|t| == 2 ==> IsStandard(t[1]) || IsPoints(t[1]))
      && (|t| == 3 ==> IsStandard(t[1]) && IsPoints(t[2]))
    case RelayTail =>
      (|t| == 3 || (|t| == 4 && IsPoints(t[3])))
      && IsRelayLetter(t[0]) && IsRelaySeed(t[1]) && IsRelayFinals(t[2])
    case DivingTail =>
      (|t| == 1 || (|t| == 2 && IsPoints(t[1]))) && DivingScore(t[0]).Some?
  }

  /** Whether the last `m` words of `ws` are a run of the columns `shape` names. */
  predicate FitsAt(ws: seq<string>, shape: Shape, m: nat) {
    m <= |ws| && Fits(shape, ws[|ws| - m..])
  }

  /**
   * The number of words the tail takes when the middle starts at word `s` and the
   * tail has at most `k` words: the longest run that fits and leaves the middle
   * at least one word, or 0 when none does.
   */
  function TailFrom(ws: seq<string>, s: nat, shape: Shape, k: nat): (n: nat)
    ensures n == 0 || (Shortest(shape) <= n <= k && s + n < |ws| && FitsAt(ws, shape, n))
    ensures forall m :: n < m <= k && Shortest(shape) <= m && s + m < |ws| ==> !FitsAt(ws, shape, m)
    decreases k
  {
    if k < Shortest(shape) then 0
    else if s + k < |ws| && FitsAt(ws, shape, k) then k
    else TailFrom(ws, s, shape, k - 1)
  }

  function Tail(ws: seq<string>, s: nat, shape: Shape): nat {
    TailFrom(ws, s, shape, Longest(shape))
  }

  /** A tail that is found fits, is at least the shortest run and leaves a middle. */
  lemma TailFits(ws: seq<string>, s: nat, shape: Shape)
    ensures var n := Tail(ws, s, shape);
      n == 0 || (Shortest(shape) <= n <= Longest(shape) && s + n < |ws| && FitsAt(ws, shape, n))
  {
    hide FitsAt;
  }

  /** `school.strip().rstrip(',')` for the school words `ws[s..e]`. */
  function School(ws: seq<string>, s: nat, e: nat): string
    requires s <= e <= |ws|
  {
    RStripChar(Unwords(ws[s..e]), ',')
  }

  /** The points column at index `i` of the tail, when the tail is that long. */
  function PointsAt(t: seq<string>, i: nat): Option<int> {
    if i < |t| then Points(Some(t[i])) else None
  }

  // -------------------------------------------------------------------------
  // The invitational name: `[A-Za-z'\-]+(?:\s[A-Za-z'\-]+)*,\s*[A-Za-z\s\.\-]+?`
  // -------------------------------------------------------------------------

  predicate IsFirstNameChar(c: char) { IsLetter(c) || c == '.' || c == '-' }

  /** A word of the first-name part. */
  predicate FirstNameWord(w: string) { forall i :: 0 <= i < |w| ==> IsFirstNameChar(w[i]) }

  /** A word of the surname before the comma. */
  predicate SurnameWord(w: string) { w != "" && forall i :: 0 <= i < |w| ==> IsNameChar(w[i]) }

  /** The word that closes the surname: surname characters, a comma, and the start of the first name. */
  predicate CommaWord(w: string) {
    var c := IndexOf(w, ',', 0);
    c < |w| && SurnameWord(w[..c]) && FirstNameWord(w[c + 1..])
  }

  /** What follows the comma in the comma word. */
  function AfterComma(w: string): string
    requires IndexOf(w, ',', 0) < |w|
  {
    w[IndexOf(w, ',', 0) + 1..]
  }

  /** The first word from `i` on that holds a comma, or `|ws|`. */
  function CommaIndex(ws: seq<string>, i: nat): (j: nat)
    requires i <= |ws|
    ensures i <= j <= |ws|
    ensures j < |ws| ==> IndexOf(ws[j], ',', 0) < |ws[j]|
    ensures forall k :: i <= k < j ==> IndexOf(ws[k], ',', 0) == |ws[k]|
    decreases |ws| - i
  {
    if i == |ws| || IndexOf(ws[i], ',', 0) < |ws[i]| then i else CommaIndex(ws, i + 1)
  }

  /** The first word from `i` on that is not a first-name word, or `|ws|`. */
  function FirstNameEnd(ws: seq<string>, i: nat): (j: nat)
    requires i <= |ws|
    ensures i <= j <= |ws|
    ensures forall k :: i <= k < j ==> FirstNameWord(ws[k])
    ensures j < |ws| ==> !FirstNameWord(ws[j])
    decreases |ws| - i
  {
    if i < |ws| && FirstNameWord(ws[i]) then FirstNameEnd(ws, i + 1) else i
  }

  /**
   * The index just past the name that starts at word 1.  Before an age the lazy
   * first name runs up to the first word that is not a first-name word (no
   * first-name word is an age); with no age column it is as short as it can be:
   * the text glued to the comma, or else the one word after it.
   */
  function NameEnd(ws: seq<string>, withAge: bool): (m: Option<nat>)
    requires 1 <= |ws|
    ensures m.Some? ==> 2 <= m.value <= |ws|
  {
    var j := CommaIndex(ws, 1);
    if j == |ws| || !CommaWord(ws[j]) || !(forall k :: 1 <= k < j ==> SurnameWord(ws[k])) then None
    else if withAge then
      var m := FirstNameEnd(ws, j + 1);
      if AfterComma(ws[j]) == "" && m == j + 1 then None else Some(m)
    else if AfterComma(ws[j]) != "" then Some(j + 1)
    else if j + 1 < |ws| && FirstNameWord(ws[j + 1]) then Some(j + 2)
    else None
  }

  /** Place, name, age and the index of the school's first word. */
  datatype Lead = Lead(place: Option<nat>, name: string, age: Option<string>, school: nat)

  /** `^(\d+|---)\s+` name `\s+(\d{1,2})\s+`, or the same without the age. */
  function LeadOf(ws: seq<string>, withAge: bool): (r: Option<Lead>)
    ensures r.Some? ==> 1 <= |ws| && IsPlace(ws[0]) && r.value.school <= |ws|
    ensures r.Some? ==> 1 <= |ws| && (r.value.place.None? <==> ws[0] == "---")
    ensures r.Some? ==> (r.value.age.Some? <==> withAge)
    ensures r.Some? && withAge ==> IsAge(r.value.age.value)
  {
    if |ws| == 0 || !IsPlace(ws[0]) then None
    else match NameEnd(ws, withAge)
      case None => None
      case Some(m) =>
        if !withAge then Some(Lead(PlaceValue(ws[0]), Unwords(ws[1..m]), None, m))
        else if m < |ws| && IsAge(ws[m]) then Some(Lead(PlaceValue(ws[0]), Unwords(ws[1..m]), Some(ws[m]), m + 1))
        else None
  }

  // -------------------------------------------------------------------------
  // The individual invitational grammar
  // -------------------------------------------------------------------------

  /** `finals.startswith('x') or finals.startswith('X')` */
  predicate Exhibition(w: string) { w != "" && (w[0] == 'x' || w[0] == 'X') }

  /** The finals column of patterns 3 to 5: marks stripped, status words read. */
  function Cleaned(w: string): (m: Mark)
    requires IsFinals(w)
    ensures m.exhibition <==> Exhibition(w)
    ensures m.dq <==> w == "DQ"
    ensures m.scratch <==> w == "SCR" || w == "DFS" || w == "NS"
    ensures m.seconds.Some? <==> IsMarkedTime(w)
    ensures m.seconds.Some? <==> TimeShape(m.finals)
  {
    var clean := LStripAny(w, "xXJ");
    CleanedFinals(w);
    Mark(clean, TimeToSeconds(clean), Exhibition(w),
         clean == "DQ", clean == "SCR" || clean == "DFS" || clean == "NS")
  }

  /** The invitational shapes, and the index of the finals column in each. */
  predicate InvitationalShape(shape: Shape) {
    shape.DqTime? || shape.DqOnly? || shape.DfsOnly? || shape.SeedFinals? || shape.FinalsOnly?
  }

  /**
   * The result of an invitational pattern whose tail is the last `n` words:
   * pattern 1 keeps the time after `DQ`, patterns 2 and 2b record `DQ` and `DFS`,
   * patterns 3 to 5 clean their finals column.
   */
  function Invitational(ws: seq<string>, lead: Lead, e: EventHeader, shape: Shape, n: nat): (r: SwimResult)
    requires InvitationalShape(shape) && lead.school + n < |ws| && Shortest(shape) <= n && FitsAt(ws, shape, n)
    ensures FromEvent(r, e) && !r.isRelay && r.relayLetter.None? && r.timeStandard.None?
    ensures r.place == lead.place && r.year == lead.age
    ensures FinalsAgree(r) && !(r.isDq && r.isScratch)
    ensures r.name == lead.name && r.team == School(ws, lead.school, |ws| - n)
    ensures shape.DqTime? ==> r.isDq && r.finalsTime == ws[|ws| - n + 2] && !r.isExhibition
    ensures shape.DqTime? ==> r.finalsSeconds.Some?
    ensures shape.DqTime? && n == 4 ==> r.points == ParseDecimal(ws[|ws| - 1])
    ensures shape.DqOnly? ==> r.isDq && r.finalsTime == "DQ" && r.finalsSeconds.None?
    ensures shape.DfsOnly? ==> r.isScratch && r.finalsTime == "DFS" && r.finalsSeconds.None?
  {
    var t := ws[|ws| - n..];
    var who := NameYearTeam(lead.name, lead.age, School(ws, lead.school, |ws| - n));
    match shape
    case DqTime =>
      TimeShapeParses(t[2]);
      Make(e, false, lead.place, who, None, Mark(t[2], TimeToSeconds(t[2]), false, true, false), PointsAt(t, 3), None)
    case DqOnly =>
      TimeShapeFirstNot("DQ");
      Make(e, false, lead.place, who, None, Mark("DQ", None, false, true, false), None, None)
    case DfsOnly =>
      TimeShapeFirstNot("DFS");
      Make(e, false, lead.place, who, None, Mark("DFS", None, false, false, true), None, None)
    case SeedFinals =>
      Make(e, false, lead.place, who, None, Cleaned(t[1]), PointsAt(t, 2), None)
    case FinalsOnly =>
      Make(e, false, lead.place, who, None, Cleaned(t[0]), PointsAt(t, 1), None)
  }

  /** The first of the given invitational shapes whose longest fitting tail leaves a school. */
  function FirstFit(ws: seq<string>, s: nat, shapes: seq<Shape>): (r: Option<(Shape, nat)>)
    requires forall i :: 0 <= i < |shapes| ==> InvitationalShape(shapes[i])
    ensures r.Some? ==> InvitationalShape(r.value.0) && r.value.0 in shapes
    ensures r.Some? ==> s + r.value.1 < |ws| && Shortest(r.value.0) <= r.value.1 && FitsAt(ws, r.value.0, r.value.1)
    ensures r.Some? ==> r.value.1 == Tail(ws, s, r.value.0)
  {
    if shapes == [] then None
    else
      var n := Tail(ws, s, shapes[0]);
      if n > 0 then Some((shapes[0], n)) else FirstFit(ws, s, shapes[1..])
  }

  /** Patterns 1 to 4, tried in order, all of which read an age column. */
  const AgePatterns: seq<Shape> := [DqTime, DqOnly, DfsOnly, SeedFinals, FinalsOnly]

  /** Patterns 1 to 4 after the lead with an age. */
  function WithAge(ws: seq<string>, lead: Lead, e: EventHeader): (r: Option<SwimResult>)
    requires lead.school <= |ws|
    ensures r.Some? ==> FromEvent(r.value, e) && !r.value.isRelay && r.value.relayLetter.None?
    ensures r.Some? ==> r.value.place == lead.place && r.value.year == lead.age && r.value.timeStandard.None?
    ensures r.Some? ==> FinalsAgree(r.value) && !(r.value.isDq && r.value.isScratch)
  {
    match FirstFit(ws, lead.school, AgePatterns)
    case None => None
    case Some((shape, n)) => Some(Invitational(ws, lead, e, shape, n))
  }

  /** Pattern 5, with no age column; a school that starts with a digit rejects the line. */
  function WithoutAge(ws: seq<string>, e: EventHeader): (r: Option<SwimResult>)
    requires forall w <- ws :: w != ""
    ensures r.Some? ==> FromEvent(r.value, e) && !r.value.isRelay && r.value.relayLetter.None?
    ensures r.Some? ==> 1 <= |ws| && (r.value.place.None? <==> ws[0] == "---") && r.value.timeStandard.None?
    ensures r.Some? ==> FinalsAgree(r.value) && !(r.value.isDq && r.value.isScratch)
    ensures r.Some? ==> r.value.year.None?
    ensures r.Some? ==> r.value.team == "" || !IsDigit(r.value.team[0])
  {
    match LeadOf(ws, false)
    case None => None
    case Some(lead) => NoAgeTail(ws, lead, e)
  }

  /** Pattern 5 after its lead. */
  function NoAgeTail(ws: seq<string>, lead: Lead, e: EventHeader): (r: Option<SwimResult>)
    requires forall w <- ws :: w != ""
    requires lead.school <= |ws|
    ensures r.Some? ==> FromEvent(r.value, e) && !r.value.isRelay && r.value.relayLetter.None?
    ensures r.Some? ==> r.value.place == lead.place && r.value.year == lead.age && r.value.timeStandard.None?
    ensures r.Some? ==> FinalsAgree(r.value) && !(r.value.isDq && r.value.isScratch)
    ensures r.Some? ==> r.value.team == "" || !IsDigit(r.value.team[0])
  {
    var n := Tail(ws, lead.school, SeedFinals);
    if n == 0 then None
    else
      TailFits(ws, lead.school, SeedFinals);
      SchoolStart(ws, lead.school, |ws| - n);
      if IsDigit(ws[lead.school][0]) then None else Some(Invitational(ws, lead, e, SeedFinals, n))
  }

  /** `_parse_individual_invitational` on the words of a line. */
  function IndividualInvitational(ws: seq<string>, e: EventHeader): (r: Option<SwimResult>)
    requires forall w <- ws :: w != ""
    ensures r.Some? ==> FromEvent(r.value, e) && !r.value.isRelay && r.value.relayLetter.None?
    ensures r.Some? ==> 1 <= |ws| && (r.value.place.None? <==> ws[0] == "---")
    ensures r.Some? ==> FinalsAgree(r.value) && !(r.value.isDq && r.value.isScratch)
    ensures r.Some? ==> r.value.timeStandard.None?
    ensures r.Some? && r.value.year.Some? ==> IsAge(r.value.year.value)
  {
    match LeadOf(ws, true)
    case Some(lead) =>
      var r := WithAge(ws, lead, e);
      if r.Some? then r else WithoutAge(ws, e)
    case None => WithoutAge(ws, e)
  }

  // -------------------------------------------------------------------------
  // The individual dual-meet grammar
  // -------------------------------------------------------------------------

  /** The standard and points columns of a dual-meet tail. */
  function DualStandard(t: seq<string>): Option<string> {
    if |t| == 3 || (|t| == 2 && IsStandard(t[1])) then Some(t[1]) else None
  }

  function DualPoints(t: seq<string>): Option<int> {
    if |t| == 3 then Points(Some(t[2]))
    else if |t| == 2 && IsPoints(t[1]) then Points(Some(t[1]))
    else None
  }

  /**
   * The main dual-meet pattern: `Place Blob [x]Time [Standard] [Points]`.  The
   * tail is the longest run of those columns that leaves a blob (`TailFrom`); its
   * first word is the time, and the blob before it gives name, year and team.
   */
  function DualMain(ws: seq<string>, e: EventHeader): (r: Option<SwimResult>)
    ensures r.Some? <==> 1 <= |ws| && IsPlace(ws[0]) && Tail(ws, 1, DualTail) > 0
    ensures r.Some? ==> (r.value.place.None? <==> ws[0] == "---")
    ensures r.Some? ==> (r.value.isScratch <==> r.value.finalsTime == "SCR")
    ensures r.Some? ==> FinalsAgree(r.value)
    ensures r.Some? ==>
      var n := Tail(ws, 1, DualTail);
      var t := ws[|ws| - n..];
      var blob := Unwords(ws[1..|ws| - n]);
      r.value.place == PlaceValue(ws[0])
      && r.value.finalsTime == DualTimeText(t[0]) && (r.value.isExhibition <==> !IsDualTime(t[0]))
      && NameYearTeam(r.value.name, r.value.year, r.value.team) == ExtractNameYearTeam(blob)
      && r.value.timeStandard == DualStandard(t) && r.value.points == DualPoints(t)
      && (r.value.isDq <==> r.value.finalsTime == "DQ" || Contains(blob, "DQ"))
  {
    if |ws| == 0 || !IsPlace(ws[0]) then None
    else
      var n := Tail(ws, 1, DualTail);
      if n == 0 then None
      else
        var t := ws[|ws| - n..];
        var time := DualTimeText(t[0]);
        var blob := Unwords(ws[1..|ws| - n]);
        DualTimeSeconds(t[0]);
        Some(Make(e, false, PlaceValue(ws[0]), ExtractNameYearTeam(blob), None,
                  Mark(time, TimeToSeconds(time), !IsDualTime(t[0]), time == "DQ" || Contains(blob, "DQ"), time == "SCR"),
                  DualPoints(t), DualStandard(t)))
  }

  /** `\s*((?:\d+:)?\d+\.\d+)?\s*([A-Z]+)?\s*(\d+\.?\d*)?\s*$` after the DQ marker, word by word. */
  datatype AfterDq = AfterDq(time: Option<string>, standard: Option<string>, points: Option<string>)

  function AfterDqOf(t: seq<string>): Option<AfterDq> {
    var time := if 0 < |t| && TimeShape(t[0]) then Some(t[0]) else None;
    var i := if time.Some? then 1 else 0;
    var standard := if i < |t| && IsStandard(t[i]) then Some(t[i]) else None;
    var j := if standard.Some? then i + 1 else i;
    var points := if j < |t| && IsPoints(t[j]) then Some(t[j]) else None;
    var k := if points.Some? then j + 1 else j;
    if k == |t| then Some(AfterDq(time, standard, points)) else None
  }

  /** Whether `DQ` starts at position `k` of the word `w`. */
  predicate DqAt(w: string, k: nat) { k + 2 <= |w| && w[k..k + 2] == "DQ" }

  /**
   * The columns after a marker at position `k` of word `j`: the rest of that word,
   * if any (the `\s*` after `(DQ)` lets a column follow the marker with no blank),
   * then the words after it.
   */
  function AfterMarker(ws: seq<string>, j: nat, k: nat): seq<string>
    requires j < |ws| && DqAt(ws[j], k)
  {
    var g := ws[j][k + 2..];
    (if g == "" then [] else [g]) + ws[j + 1..]
  }

  /**
   * Whether the `DQ` at position `k` of word `j` can be the fallback's marker: the
   * lazy blob before it is not empty and `AfterDqOf` reads the columns after it.
   */
  predicate IsDqMarker(ws: seq<string>, j: nat, k: nat) {
    1 <= j < |ws| && DqAt(ws[j], k) && (j > 1 || k > 0) && AfterDqOf(AfterMarker(ws, j, k)).Some?
  }

  /** The first marker at position `k` or later of word `j`; `|ws[j]|` if none. */
  function MarkerIn(ws: seq<string>, j: nat, k: nat): (m: nat)
    requires 1 <= j < |ws| && k <= |ws[j]|
    ensures k <= m <= |ws[j]|
    ensures m < |ws[j]| ==> IsDqMarker(ws, j, m)
    decreases |ws[j]| - k
  {
    if k == |ws[j]| then k
    else if IsDqMarker(ws, j, k) then k
    else MarkerIn(ws, j, k + 1)
  }

  /**
   * The marker the lazy `(.+?)` stops at: the first one in reading order from word
   * `i` on, as (word, position); the word is `|ws|` if there is none.
   */
  function DqMarker(ws: seq<string>, i: nat): (m: (nat, nat))
    requires 1 <= i <= |ws|
    ensures i <= m.0 <= |ws|
    ensures m.0 < |ws| ==> IsDqMarker(ws, m.0, m.1)
    decreases |ws| - i
  {
    if i == |ws| then (i, 0)
    else
      var k := MarkerIn(ws, i, 0);
      if k < |ws[i]| then (i, k) else DqMarker(ws, i + 1)
  }

  /** `match.group(2).strip()`: the words before the marker and the start of its word. */
  function DqBlob(ws: seq<string>, j: nat, k: nat): string
    requires 1 <= j < |ws| && k <= |ws[j]|
  {
    Strip(Unwords(ws[1..j] + [ws[j][..k]]))
  }

  /**
   * The fallback dual-meet pattern `Place Blob DQ [Time] [Standard] [Points]`: the
   * time after the marker, when there is one, is the finals; otherwise the finals
   * is `DQ`.  Name, year and team are recovered from the blob before the marker.
   */
  function DualDq(ws: seq<string>, e: EventHeader): (r: Option<SwimResult>)
    ensures r.Some? <==> 2 <= |ws| && IsPlace(ws[0]) && DqMarker(ws, 1).0 < |ws|
    ensures r.Some? ==> r.value.isDq && !r.value.isScratch && !r.value.isExhibition
    ensures r.Some? ==> FinalsAgree(r.value)
    ensures r.Some? ==>
      var m := DqMarker(ws, 1);
      var after := AfterDqOf(AfterMarker(ws, m.0, m.1)).value;
      r.value.place == PlaceValue(ws[0])
      && r.value.finalsTime == (if after.time.Some? then after.time.value else "DQ")
      && NameYearTeam(r.value.name, r.value.year, r.value.team) == ExtractNameYearTeam(DqBlob(ws, m.0, m.1))
      && r.value.timeStandard == after.standard && r.value.points == Points(after.points)
  {
    if |ws| < 2 || !IsPlace(ws[0]) then None
    else
      var m := DqMarker(ws, 1);
      if m.0 == |ws| then None
      else
        var after := AfterDqOf(AfterMarker(ws, m.0, m.1)).value;
        var time := if after.time.Some? then after.time.value else "DQ";
        TimeShapeFirstNot("DQ");
        OptionalTime(after.time);
        Some(Make(e, false, PlaceValue(ws[0]), ExtractNameYearTeam(DqBlob(ws, m.0, m.1)), None,
                  Mark(time, TimeToSeconds(time), false, true, false), Points(after.points), after.standard))
  }

  /** Whether some word contains `sub`: `sub in line` for a `sub` without blanks. */
  predicate SaysWord(ws: seq<string>, sub: string) {
    exists w <- ws :: Contains(w, sub)
  }

  /** `_parse_individual_dual` on the words of a line. */
  function IndividualDual(ws: seq<string>, e: EventHeader): (r: Option<SwimResult>)
    ensures r.Some? ==> FromEvent(r.value, e) && !r.value.isRelay && r.value.relayLetter.None?
    ensures r.Some? ==> 1 <= |ws| && (r.value.place.None? <==> ws[0] == "---")
    ensures r.Some? ==> FinalsAgree(r.value)
    ensures r.Some? ==> r.value.year.None? || Roster.IsYearCode(r.value.year.value)
  {
    var main := DualMain(ws, e);
    if main.Some? then main
    else if SaysWord(ws, "DQ") && !SaysWord(ws, "SCR") then DualDq(ws, e)
    else None
  }

  // -------------------------------------------------------------------------
  // The relay grammars
  // -------------------------------------------------------------------------

  /** `(?:\d+:)?\d+\.\d+|NT|DQ|NS` */
  predicate IsRelaySeed(w: string) { TimeShape(w) || w == "NT" || w == "DQ" || w == "NS" }

  /** `x?(?:\d+:)?\d+\.\d+|DQ|NS|SCR` */
  predicate IsRelayFinals(w: string) {
    TimeShape(w) || (w != "" && w[0] == 'x' && TimeShape(w[1..])) || w == "DQ" || w == "NS" || w == "SCR"
  }

  /** `_parse_relay_invitational`: `Place Team Letter Seed [x]Finals [Points]`. */
  function RelayInvitational(ws: seq<string>, e: EventHeader): (r: Option<SwimResult>)
    ensures r.Some? ==> 1 <= |ws| && (r.value.place.None? <==> ws[0] == "---")
    ensures r.Some? ==> FromEvent(r.value, e) && r.value.isRelay && r.value.year.None? && r.value.name == r.value.team
    ensures r.Some? ==> r.value.relayLetter.Some? && IsRelayLetter(r.value.relayLetter.value)
    ensures r.Some? ==> FinalsAgree(r.value) && !(r.value.isDq && r.value.isScratch)
  {
    if |ws| == 0 || !IsPlace(ws[0]) then None
    else
      var n := Tail(ws, 1, RelayTail);
      if n == 0 then None
      else
        var t := ws[|ws| - n..];
        var clean := LStripAny(t[2], "xX");
        var team := Unwords(ws[1..|ws| - n]);
        RelayFinalsSeconds(t[2]);
        Some(Make(e, true, PlaceValue(ws[0]), NameYearTeam(team, None, team), Some(t[0]),
                  Mark(clean, TimeToSeconds(clean), Exhibition(t[2]),
                       clean == "DQ", clean == "SCR" || clean == "NS"),
                  PointsAt(t, 3), None))
  }

  /** `[A-Z][A-Za-z]{1,30}`: a team code without its suffix. */
  predicate IsLetterCode(w: string) { 2 <= |w| <= 31 && IsUpper(w[0]) && AllLetters(w) }

  /** `[A-Z][A-Za-z]{1,30}(?:-[A-Z]{2})?` */
  predicate IsTeamCode(w: string) {
    IsLetterCode(w)
    || (|w| >= 5 && w[|w| - 3] == '-' && IsUpper(w[|w| - 2]) && IsUpper(w[|w| - 1]) && IsLetterCode(w[..|w| - 3]))
  }

  /** `_parse_relay_dual`: `Place Team Letter [x]Time [Time] [Points]`, the second time tried first. */
  function RelayDual(ws: seq<string>, e: EventHeader): (r: Option<SwimResult>)
    ensures r.Some? ==> 4 <= |ws| && (r.value.place.None? <==> ws[0] == "---")
    ensures r.Some? ==> FromEvent(r.value, e) && r.value.isRelay && r.value.year.None? && r.value.name == r.value.team
    ensures r.Some? ==> r.value.relayLetter.Some? && IsRelayLetter(r.value.relayLetter.value)
    ensures r.Some? ==> FinalsAgree(r.value) && !(r.value.isDq && r.value.isScratch)
    ensures r.Some? && !r.value.isDq ==> r.value.finalsTime == DualTimeText(ws[3])
  {
    if !(4 <= |ws| <= 6 && IsPlace(ws[0]) && IsTeamCode(ws[1]) && IsRelayLetter(ws[2]) && IsMarkedDualTime(ws[3]))
    then None
    else
      var rest := ws[4..];
      var time2 := if 0 < |rest| && TimeShape(rest[0]) then Some(rest[0]) else None;
      var p := if time2.Some? then 1 else 0;
      var points := if p < |rest| && IsPoints(rest[p]) then Some(rest[p]) else None;
      if p + (if points.Some? then 1 else 0) != |rest| then None
      else
        var time1 := DualTimeText(ws[3]);
        var dq := time1 == "DQ";
        var finals := if dq && time2.Some? then time2.value else time1;
        DualTimeSeconds(ws[3]);
        OptionalTime(time2);
        Some(Make(e, true, PlaceValue(ws[0]), NameYearTeam(ws[1], None, ws[1]), Some(ws[2]),
                  Mark(finals, TimeToSeconds(finals), !IsDualTime(ws[3]), dq, time1 == "SCR" || time1 == "NS"),
                  Points(points), None))
  }

  // -------------------------------------------------------------------------
  // The diving grammar
  // -------------------------------------------------------------------------

  /** Digits and dots only: `[\d\.]+` when non-empty. */
  predicate DigitsAndDots(w: string) { forall i :: 0 <= i < |w| ==> IsDigit(w[i]) || w[i] == '.' }

  /** `(x)?J?([\d\.]+|SCR)`: whether the score carries the exhibition mark, and the score. */
  function DivingScore(w: string): Option<(bool, string)> {
    var x := w != "" && w[0] == 'x';
    var a := if x then w[1..] else w;
    var b := if a != "" && a[0] == 'J' then a[1..] else a;
    if b == "SCR" || (b != "" && DigitsAndDots(b)) then Some((x, b)) else None
  }

  /** What `parse_diving_result` does with a line: no match, a result, or a `ValueError`. */
  datatype DivingOutcome = NoMatch | Parsed(result: SwimResult) | Raises

  /** The diving pattern's split of a line: place word, blob, score token and points, when it matches. */
  datatype DivingLine = DivingLine(place: Option<nat>, blob: string, exhibition: bool, score: string, points: Option<int>)

  function DivingSplit(ws: seq<string>): (d: Option<DivingLine>)
    ensures d.Some? ==> 1 <= |ws| && (d.value.place.None? <==> ws[0] == "---")
    ensures d.Some? ==> d.value.score == "SCR" || (d.value.score != "" && DigitsAndDots(d.value.score))
  {
    if |ws| == 0 || !IsPlace(ws[0]) then None
    else
      var n := Tail(ws, 1, DivingTail);
      if n == 0 then None
      else
        var t := ws[|ws| - n..];
        var score := DivingScore(t[0]).value;
        Some(DivingLine(PlaceValue(ws[0]), Unwords(ws[1..|ws| - n]), score.0, score.1, PointsAt(t, 1)))
  }

  /** The diving result for a split line whose score reads as `seconds`. */
  function DivingResult(d: DivingLine, seconds: Option<int>, e: EventHeader): SwimResult {
    Make(e, false, d.place, ExtractNameYearTeam(d.blob), None,
         Mark(d.score, seconds, d.exhibition, false, d.score == "SCR"), d.points, None)
  }

  /**
   * `parse_diving_result` as written: `float(score_str)` raises on a score such as
   * `1.2.3` or `.` that the pattern `[\d\.]+` lets through.
   */
  function DivingAsWritten(line: string, e: EventHeader): (o: DivingOutcome)
    ensures o.Raises? ==> DivingSplit(Words(Strip(line))).Some?
  {
    var s := Strip(line);
    if s == "" then NoMatch
    else match DivingSplit(Words(s))
      case None => NoMatch
      case Some(d) =>
        if d.score == "SCR" then Parsed(DivingResult(d, None, e))
        else match ParseDecimal(d.score)
          case None => Raises
          case Some(v) => Parsed(DivingResult(d, Some(v), e))
  }

  /**
   * `parse_diving_result` with the score read the way `time_to_seconds` reads a
   * time: a score `float` rejects gives no seconds instead of an exception.
   */
  function ParseDivingResult(line: string, e: EventHeader): (r: Option<SwimResult>)
    ensures r.Some? ==> FromEvent(r.value, e) && !r.value.isRelay && !r.value.isDq
    ensures r.Some? ==> (r.value.isScratch <==> r.value.finalsTime == "SCR")
    ensures r.Some? && r.value.isScratch ==> r.value.finalsSeconds.None?
  {
    var s := Strip(line);
    if s == "" then None
    else match DivingSplit(Words(s))
      case None => None
      case Some(d) => Some(DivingResult(d, if d.score == "SCR" then None else ParseDecimal(d.score), e))
  }

  // -------------------------------------------------------------------------
  // Dispatch: parse_individual_result, parse_relay_result
  // -------------------------------------------------------------------------

  /**
   * `line.strip()`, then `lstrip('*')`: the words of what is left, or `None` when
   * the line is blank or the text after the stars starts with a blank (no pattern
   * can then match its `^(\d+|---)\s+`).
   */
  function ResultWords(line: string): (ws: Option<seq<string>>)
    ensures ws.Some? ==> forall w <- ws.value :: w != "" && NoSpace(w)
  {
    var s := Strip(line);
    if s == "" then None
    else
      var u := LStripChar(s, '*');
      if u != "" && IsSpace(u[0]) then None else Some(Words(u))
  }

  /**
   * `re.sub(r'(\d+)\.\s+(\d+)\s*$', r'\1.\2', line)`: a number broken after its
   * decimal point at the end of the line is joined again.
   */
  function JoinSplitDecimal(ws: seq<string>): (r: seq<string>)
    requires forall w <- ws :: w != "" && NoSpace(w)
    ensures forall w <- r :: w != "" && NoSpace(w)
    ensures |r| == |ws| || |r| == |ws| - 1
  {
    if |ws| >= 2 && BrokenDecimal(ws[|ws| - 2], ws[|ws| - 1]) then
      var a, b := ws[|ws| - 2], ws[|ws| - 1];
      assert a in ws && b in ws;
      NoSpaceJoin(a, b);
      JoinedWords(ws[..|ws| - 2], a + b, ws);
      ws[..|ws| - 2] + [a + b]
    else ws
  }

  /** `a` ends in a digit and a point, `b` is all digits. */
  predicate BrokenDecimal(a: string, b: string) {
    |a| >= 2 && IsDigit(a[|a| - 2]) && a[|a| - 1] == '.' && b != "" && AllDigits(b)
  }

  /** `parse_individual_result`: the invitational grammar for `1col` pages, else (or failing that) the dual-meet one. */
  function ParseIndividualResult(line: string, e: EventHeader, fmt: string): (r: Option<SwimResult>)
    ensures r.Some? ==> FromEvent(r.value, e) && !r.value.isRelay && r.value.relayLetter.None?
    ensures r.Some? ==> FinalsAgree(r.value)
  {
    match ResultWords(line)
    case None => None
    case Some(ws0) =>
      var ws := JoinSplitDecimal(ws0);
      var inv := if fmt == "1col" then IndividualInvitational(ws, e) else None;
      if inv.Some? then inv else IndividualDual(ws, e)
  }

  /** `parse_relay_result`: the invitational relay grammar for `1col` pages, else (or failing that) the dual-meet one. */
  function ParseRelayResult(line: string, e: EventHeader, fmt: string): (r: Option<SwimResult>)
    ensures r.Some? ==> FromEvent(r.value, e) && r.value.isRelay && r.value.year.None? && r.value.name == r.value.team
    ensures r.Some? ==> FinalsAgree(r.value) && !(r.value.isDq && r.value.isScratch)
  {
    match ResultWords(line)
    case None => None
    case Some(ws) =>
      var inv := if fmt == "1col" then RelayInvitational(ws, e) else None;
      if inv.Some? then inv else RelayDual(ws, e)
  }

  // -------------------------------------------------------------------------
  // Properties of the grammars
  // -------------------------------------------------------------------------

  /** The invitational grammar returns the result of the first age pattern that fits. */
  lemma InvitationalFits(ws: seq<string>, e: EventHeader, lead: Lead, shape: Shape, n: nat)
    requires forall w <- ws :: w != ""
    requires LeadOf(ws, true) == Some(lead)
    requires FirstFit(ws, lead.school, AgePatterns) == Some((shape, n))
    ensures IndividualInvitational(ws, e) == Some(Invitational(ws, lead, e, shape, n))
  {
  }

  lemma DqNotSeed()
    ensures !IsSeed("DQ") && !IsMarkedTime("DQ") && !TimeShape("DQ")
  {
    TimeShapeFirstNot("DQ");
  }

  /**
   * Pattern 1: after `Seed DQ`, the swum time is the finals, with its seconds, and
   * the swimmer is disqualified; a points column after it is kept.
   */
  lemma SeedDqTime(ws: seq<string>, e: EventHeader, lead: Lead, n: nat)
    requires forall w <- ws :: w != ""
    requires LeadOf(ws, true) == Some(lead)
    requires (n == 3 || n == 4) && lead.school + n < |ws| && FitsAt(ws, DqTime, n)
    ensures var r := IndividualInvitational(ws, e);
      r.Some? && r.value.isDq && !r.value.isScratch && r.value.finalsTime == ws[|ws| - n + 2]
      && r.value.finalsSeconds.Some? && (n == 4 ==> r.value.points == ParseDecimal(ws[|ws| - 1]))
  {
    hide Fits, FitsAt, TailFrom, LeadOf, WithoutAge, WithAge, School, Unwords, IndividualInvitational,
      IsSeed, TimeShape, IsPoints, TimeToSeconds, ParseDecimal;
    DqTimeTail(ws, lead.school, n);
    assert FirstFit(ws, lead.school, AgePatterns) == Some((DqTime, n));
    InvitationalFits(ws, e, lead, DqTime, n);
  }

  lemma DqTimeTail(ws: seq<string>, s: nat, n: nat)
    requires (n == 3 || n == 4) && s + n < |ws| && FitsAt(ws, DqTime, n)
    ensures Tail(ws, s, DqTime) == n
  {
    DqNotSeed();
    assert n == 3 ==> !FitsAt(ws, DqTime, 4);
  }

  /** Pattern 2: `Seed DQ` with no time after it records `DQ` and no seconds. */
  lemma SeedDqOnly(ws: seq<string>, e: EventHeader, lead: Lead)
    requires forall w <- ws :: w != ""
    requires LeadOf(ws, true) == Some(lead)
    requires lead.school + 2 < |ws| && IsSeed(ws[|ws| - 2]) && ws[|ws| - 1] == "DQ"
    ensures var r := IndividualInvitational(ws, e);
      r.Some? && r.value.isDq && r.value.finalsTime == "DQ" && r.value.finalsSeconds.None?
  {
    hide Fits, FitsAt, TailFrom, LeadOf, WithoutAge, WithAge, School, Unwords, IndividualInvitational,
      IsSeed, TimeShape, IsPoints, TimeToSeconds, ParseDecimal;
    DqOnlyTail(ws, lead.school);
    var n := Tail(ws, lead.school, DqOnly);
    assert FirstFit(ws, lead.school, AgePatterns) == Some((DqOnly, n));
    InvitationalFits(ws, e, lead, DqOnly, n);
  }

  lemma DqOnlyTail(ws: seq<string>, s: nat)
    requires s + 2 < |ws| && IsSeed(ws[|ws| - 2]) && ws[|ws| - 1] == "DQ"
    ensures Tail(ws, s, DqTime) == 0 && Tail(ws, s, DqOnly) > 0
  {
    DqNotSeed();
    assert !FitsAt(ws, DqTime, 3) && !FitsAt(ws, DqTime, 4);
    assert FitsAt(ws, DqOnly, 2);
  }

  /** The dual-meet relay `DQ Time`: the time after the marker is the finals. */
  lemma RelayDqTime(ws: seq<string>, e: EventHeader)
    requires |ws| == 5 && IsPlace(ws[0]) && IsTeamCode(ws[1]) && IsRelayLetter(ws[2])
    requires ws[3] == "DQ" && TimeShape(ws[4])
    ensures var r := RelayDual(ws, e);
      r.Some? && r.value.isDq && !r.value.isScratch && r.value.finalsTime == ws[4] && r.value.finalsSeconds.Some?
  {
    TimeShapeParses(ws[4]);
    DqNotSeed();
  }

  /** The dual-meet relay `NS` or `SCR`: a scratch, with no seconds. */
  lemma RelayScratch(ws: seq<string>, e: EventHeader)
    requires |ws| == 4 && IsPlace(ws[0]) && IsTeamCode(ws[1]) && IsRelayLetter(ws[2])
    requires ws[3] == "NS" || ws[3] == "SCR"
    ensures var r := RelayDual(ws, e);
      r.Some? && r.value.isScratch && !r.value.isDq && r.value.finalsTime == ws[3] && r.value.finalsSeconds.None?
  {
    TimeShapeFirstNot(ws[3]);
  }

  /**
   * The dual-meet grammar reads `DQ 54.00` at the end of a line as the status `DQ`
   * followed by 54 points: the main pattern matches before the fallback for a
   * time after the marker is tried.
   */
  lemma DualDqThenSeconds(ws: seq<string>, e: EventHeader, a: string, f: string)
    requires |ws| >= 4 && IsPlace(ws[0]) && !IsMarkedDualTime(ws[|ws| - 3])
    requires a != "" && AllDigits(a) && f != "" && AllDigits(f)
    requires ws[|ws| - 2] == "DQ" && ws[|ws| - 1] == a + "." + f
    ensures var r := IndividualDual(ws, e);
      r.Some? && r.value.isDq && r.value.finalsTime == "DQ" && r.value.finalsSeconds.None?
      && r.value.points == Some(DigitsValue(a) * 100 + FracHundredths(f))
  {
    hide Fits, FitsAt, TailFrom, Tail, ExtractNameYearTeam, Unwords, Contains, DualDq, IsMarkedDualTime, SaysWord,
      DualMain, DualPoints, DualStandard, IsPoints, IsPlace, PlaceValue, TimeToSeconds, TimeShape, Points, ParseDecimal;
    var t := a + "." + f;
    DecimalPoints(a, f);
    DqNotSeed();
    DqPointsTail(ws, t);
    assert ws[|ws| - 2..] == ["DQ", t];
  }

  /** `a.f` is a points column, read as its value in hundredths. */
  lemma DecimalPoints(a: string, f: string)
    requires a != "" && AllDigits(a) && AllDigits(f)
    ensures var t := a + "." + f;
      IsPoints(t) && DualPoints(["DQ", t]) == Some(DigitsValue(a) * 100 + FracHundredths(f))
  {
    var t := a + "." + f;
    DigitsDotDigits(a, f);
    SpanDigitsAt(t, |a|);
    ParseDecimalOf(a, f);
  }

  /** A line ending in `DQ` and a points column has a two-word tail. */
  lemma DqPointsTail(ws: seq<string>, t: string)
    requires |ws| >= 4 && !IsMarkedDualTime(ws[|ws| - 3]) && ws[|ws| - 2] == "DQ" && ws[|ws| - 1] == t
    requires IsPoints(t)
    ensures Tail(ws, 1, DualTail) == 2
  {
    assert !FitsAt(ws, DualTail, 3);
    assert FitsAt(ws, DualTail, 2);
    hide Fits, FitsAt;
  }

  /**
   * The dual-meet grammar can set both flags: a scratch whose name blob contains
   * `DQ` (a name such as `DQuan`) is a scratch and a disqualification at once.
   */
  lemma DualScratchAndDq(ws: seq<string>, e: EventHeader)
    requires |ws| >= 4 && IsPlace(ws[0]) && ws[|ws| - 1] == "SCR"
    requires !IsMarkedDualTime(ws[|ws| - 2]) && !IsMarkedDualTime(ws[|ws| - 3])
    requires Contains(Unwords(ws[1..|ws| - 1]), "DQ")
    ensures var r := IndividualDual(ws, e); r.Some? && r.value.isDq && r.value.isScratch
  {
    hide Fits, FitsAt, TailFrom, ExtractNameYearTeam, Unwords, Contains, DualDq, Tail, IsMarkedDualTime,
      DualStandard, DualPoints, SaysWord, IsPlace, PlaceValue, DualMain, DualTimeText;
    ScratchTail(ws);
    assert ws[|ws| - 1..] == ["SCR"];
  }

  /** A line ending in `SCR` after two words that are not times has a one-word tail. */
  lemma ScratchTail(ws: seq<string>)
    requires |ws| >= 4 && ws[|ws| - 1] == "SCR"
    requires !IsMarkedDualTime(ws[|ws| - 2]) && !IsMarkedDualTime(ws[|ws| - 3])
    ensures Tail(ws, 1, DualTail) == 1 && DualTimeText("SCR") == "SCR"
  {
    assert !FitsAt(ws, DualTail, 3) && !FitsAt(ws, DualTail, 2);
    assert FitsAt(ws, DualTail, 1);
    hide Fits, FitsAt;
  }

  /** No marker of word `j` from `k` on comes before one at `m`: the search stops at `m` or earlier. */
  lemma {:induction false} MarkerInBefore(ws: seq<string>, j: nat, k: nat, m: nat)
    requires k <= m && IsDqMarker(ws, j, m)
    ensures MarkerIn(ws, j, k) <= m
    decreases m - k
  {
    if k < m && !IsDqMarker(ws, j, k) {
      MarkerInBefore(ws, j, k + 1, m);
    }
  }

  /** The search stops at `m` when nothing before it in the word is a `DQ`. */
  lemma {:induction false} MarkerInFirst(ws: seq<string>, j: nat, k: nat, m: nat)
    requires k <= m && IsDqMarker(ws, j, m)
    requires forall p :: k <= p < m ==> !DqAt(ws[j], p)
    ensures MarkerIn(ws, j, k) == m
    decreases m - k
  {
    if k < m {
      MarkerInFirst(ws, j, k + 1, m);
    }
  }

  /** A word that does not contain `DQ` holds no marker. */
  lemma {:induction false} MarkerInNone(ws: seq<string>, j: nat, k: nat)
    requires 1 <= j < |ws| && k <= |ws[j]| && !Contains(ws[j], "DQ")
    ensures MarkerIn(ws, j, k) == |ws[j]|
    decreases |ws[j]| - k
  {
    DqAtContains(ws[j]);
    if k < |ws[j]| {
      MarkerInNone(ws, j, k + 1);
    }
  }

  /** No marker comes before one at word `j`, position `m`: the one `DqMarker` finds is no later. */
  lemma {:induction false} DqMarkerBefore(ws: seq<string>, i: nat, j: nat, m: nat)
    requires 1 <= i <= j && IsDqMarker(ws, j, m)
    ensures DqMarker(ws, i).0 <= j
    ensures DqMarker(ws, i).0 == j ==> DqMarker(ws, i).1 <= m
    decreases j - i
  {
    hide MarkerIn, AfterDqOf, AfterMarker;
    if i == j {
      MarkerInBefore(ws, j, 0, m);
    } else if MarkerIn(ws, i, 0) == |ws[i]| {
      DqMarkerBefore(ws, i + 1, j, m);
    }
  }

  /** Words without a marker are passed over. */
  lemma {:induction false} DqMarkerSkips(ws: seq<string>, i: nat, j: nat)
    requires 1 <= i <= j < |ws|
    requires forall l :: i <= l < j ==> MarkerIn(ws, l, 0) == |ws[l]|
    ensures DqMarker(ws, i) == DqMarker(ws, j)
    decreases j - i
  {
    if i < j {
      DqMarkerSkips(ws, i + 1, j);
    }
  }

  lemma DqAtContains(w: string)
    ensures forall p :: DqAt(w, p) ==> Contains(w, "DQ")
  {
    forall p | DqAt(w, p) ensures Contains(w, "DQ") {
      ContainsAt(w, "DQ", p);
    }
  }

  /** In `pre + rest` with `rest` starting with `D`, no `DQ` starts inside a `pre` without one. */
  lemma PrefixNoDq(pre: string, rest: string)
    requires !Contains(pre, "DQ") && rest != "" && rest[0] == 'D'
    ensures forall p: nat :: p < |pre| ==> !DqAt(pre + rest, p)
  {
    DqAtContains(pre);
    forall p: nat | p < |pre| ensures !DqAt(pre + rest, p) {
      if p + 2 <= |pre| {
        assert (pre + rest)[p..p + 2] == pre[p..p + 2];
        assert !DqAt(pre, p);
      } else if p + 2 <= |pre + rest| {
        assert (pre + rest)[p + 1] == rest[0];
        assert (pre + rest)[p..p + 2][1] == 'D';
      }
    }
  }

  /**
   * A `DQ` glued to the end of the last word (`ARMYDQ`), which the main dual-meet
   * pattern cannot read, is caught by the fallback as a disqualification.
   */
  lemma GluedDq(ws: seq<string>, e: EventHeader)
    requires |ws| >= 4 && IsPlace(ws[0])
    requires !IsMarkedDualTime(ws[|ws| - 1]) && !IsMarkedDualTime(ws[|ws| - 2]) && !IsMarkedDualTime(ws[|ws| - 3])
    requires |ws[|ws| - 1]| >= 2 && DqAt(ws[|ws| - 1], |ws[|ws| - 1]| - 2) && !SaysWord(ws, "SCR")
    ensures var r := IndividualDual(ws, e); r.Some? && r.value.isDq && !r.value.isScratch
  {
    var j := |ws| - 1;
    var w := ws[j];
    assert !FitsAt(ws, DualTail, 3) && !FitsAt(ws, DualTail, 2) && !FitsAt(ws, DualTail, 1);
    assert Tail(ws, 1, DualTail) == 0;
    ContainsAt(w, "DQ", |w| - 2);
    assert w in ws;
    assert AfterMarker(ws, j, |w| - 2) == [];
    assert IsDqMarker(ws, j, |w| - 2);
    DqMarkerBefore(ws, 1, j, |w| - 2);
    hide Fits, FitsAt, TailFrom, ExtractNameYearTeam, Unwords, Contains, MarkerIn, IsDqMarker, AfterMarker, DualMain;
  }

  /**
   * A time glued to the DQ marker at the end of the line (`ARMY DQ1:02.34`), which
   * the main pattern cannot read, becomes the finals of the fallback's
   * disqualification, with its seconds; name, year and team come from the text
   * before the marker.
   */
  lemma DqGluedTime(ws: seq<string>, e: EventHeader, pre: string, t: string)
    requires |ws| >= 4 && IsPlace(ws[0]) && TimeShape(t)
    requires ws[|ws| - 1] == pre + "DQ" + t && !Contains(pre, "DQ")
    requires forall i :: 1 <= i < |ws| - 1 ==> !Contains(ws[i], "DQ")
    requires !IsMarkedDualTime(ws[|ws| - 1]) && !IsMarkedDualTime(ws[|ws| - 2]) && !IsMarkedDualTime(ws[|ws| - 3])
    requires !SaysWord(ws, "SCR")
    ensures var r := IndividualDual(ws, e);
      r.Some? && r.value.isDq && !r.value.isScratch && r.value.finalsTime == t
      && r.value.finalsSeconds == TimeToSeconds(t) && r.value.finalsSeconds.Some?
      && NameYearTeam(r.value.name, r.value.year, r.value.team)
         == ExtractNameYearTeam(Strip(Unwords(ws[1..|ws| - 1] + [pre])))
  {
    hide Fits, FitsAt, TailFrom, ExtractNameYearTeam, Unwords, Strip, Contains, MarkerIn, DqMarker, IsDqMarker,
      AfterMarker, IndividualDual, DualMain, SaysWord, AfterDqOf, TimeToSeconds, IsMarkedDualTime, DualDq, Points;
    var j := |ws| - 1;
    DqMarkerGlued(ws, pre, t);
    ContainsAt(ws[j], "DQ", |pre|);
    DqGluedFallback(ws, e, ws[j]);
    assert DqBlob(ws, j, |pre|) == Strip(Unwords(ws[1..j] + [pre]));
    OptionalTime(Some(t));
  }

  /** A line whose last word carries a glued `DQ` and no tail the main pattern fits falls to the DQ fallback. */
  lemma DqGluedFallback(ws: seq<string>, e: EventHeader, w: string)
    requires |ws| >= 4 && IsPlace(ws[0]) && ws[|ws| - 1] == w && Contains(w, "DQ")
    requires !IsMarkedDualTime(ws[|ws| - 1]) && !IsMarkedDualTime(ws[|ws| - 2]) && !IsMarkedDualTime(ws[|ws| - 3])
    requires !SaysWord(ws, "SCR")
    ensures IndividualDual(ws, e) == DualDq(ws, e)
  {
    assert !FitsAt(ws, DualTail, 3) && !FitsAt(ws, DualTail, 2) && !FitsAt(ws, DualTail, 1);
    assert Tail(ws, 1, DualTail) == 0;
    assert ws[|ws| - 1] in ws;
    hide Fits, FitsAt, TailFrom, ExtractNameYearTeam, Unwords, Strip, Contains, DualDq;
  }

  /** The marker of such a line is the `DQ` glued to the time, and the time is the only column after it. */
  lemma DqMarkerGlued(ws: seq<string>, pre: string, t: string)
    requires |ws| >= 4 && TimeShape(t)
    requires ws[|ws| - 1] == pre + "DQ" + t && !Contains(pre, "DQ")
    requires forall i :: 1 <= i < |ws| - 1 ==> !Contains(ws[i], "DQ")
    ensures var j := |ws| - 1;
      |pre| + 2 <= |ws[j]| && ws[j][..|pre|] == pre && DqMarker(ws, 1) == (j, |pre|)
      && DqAt(ws[j], |pre|) && AfterMarker(ws, j, |pre|) == [t]
      && AfterDqOf([t]) == Some(AfterDq(Some(t), None, None))
  {
    var j := |ws| - 1;
    var w := ws[j];
    TimeShapeFirst(t);
    assert w == pre + ("DQ" + t);
    assert w[|pre|..|pre| + 2] == "DQ" && w[..|pre|] == pre && w[|pre| + 2..] == t;
    assert AfterMarker(ws, j, |pre|) == [t];
    assert AfterDqOf([t]) == Some(AfterDq(Some(t), None, None));
    assert IsDqMarker(ws, j, |pre|);
    PrefixNoDq(pre, "DQ" + t);
    MarkerInFirst(ws, j, 0, |pre|);
    forall l | 1 <= l < j ensures MarkerIn(ws, l, 0) == |ws[l]| {
      MarkerInNone(ws, l, 0);
    }
    DqMarkerSkips(ws, 1, j);
  }

  /** The last character of joined words is the last character of the last word. */
  lemma {:induction false} UnwordsLast(ws: seq<string>)
    requires ws != [] && ws[|ws| - 1] != ""
    ensures var s := Unwords(ws); s != "" && s[|s| - 1] == ws[|ws| - 1][|ws[|ws| - 1]| - 1]
    decreases |ws|
  {
    if |ws| > 1 {
      assert ws[1..][|ws| - 2] == ws[|ws| - 1];
      UnwordsLast(ws[1..]);
    }
  }

  /** A line that is its words joined by single blanks, starting with no star, reads as those words. */
  lemma ResultWordsOf(ws: seq<string>)
    requires ws != [] && ws[0] != "" && ws[0][0] != '*' && forall w <- ws :: w != "" && NoSpace(w)
    ensures ResultWords(Unwords(ws)) == Some(ws)
  {
    var s := Unwords(ws);
    assert ws[0] in ws && ws[|ws| - 1] in ws;
    UnwordsFirst(ws);
    UnwordsLast(ws);
    StripKeeps(s);
    assert LStripChar(s, '*') == s;
    WordsOfUnwords(ws);
  }

  lemma UnwordsFive(a: string, b: string, c: string, d: string, f: string)
    ensures Unwords([a, b, c, d, f]) == a + " " + (b + " " + (c + " " + (d + " " + f)))
  {
    assert [a, b, c, d, f][1..] == [b, c, d, f];
    assert [b, c, d, f][1..] == [c, d, f];
    assert [c, d, f][1..] == [d, f];
    assert [d, f][1..] == [f];
    assert Unwords([d, f]) == d + " " + f;
    assert Unwords([c, d, f]) == c + " " + (d + " " + f);
    assert Unwords([b, c, d, f]) == b + " " + (c + " " + (d + " " + f));
  }

  /** A line of a place, blob words, a time and points is joined in three parts. */
  lemma UnwordsLine(p: string, blob: seq<string>, t: string, q: string)
    requires blob != []
    ensures Unwords([p] + blob + [t, q]) == p + " " + (Unwords(blob) + " " + (t + " " + q))
  {
    assert [t, q][1..] == [q];
    assert Unwords([t, q]) == t + " " + q;
    UnwordsConcat(blob, [t, q]);
    UnwordsConcat([p], blob + [t, q]);
    assert [p] + blob + [t, q] == [p] + (blob + [t, q]);
  }

  lemma RothwellBlob(blob: string, a: string, b: string, c: string, d: string, f: string)
    requires a == "Rothwell," && b == "Vivien" && c == "E" && d == "JR" && f == "GTCH"
    requires blob == "Rothwell, Vivien E JR GTCH"
    ensures blob == a + " " + (b + " " + (c + " " + (d + " " + f)))
  {
  }

  lemma RothwellNoDq(blob: string)
    requires blob == "Rothwell, Vivien E JR GTCH"
    ensures !Contains(blob, "DQ")
  {
    assert Lacks(blob, 'Q');
    LacksNotContains(blob, "DQ", 1);
  }

  lemma RothwellLineText(line: string, blob: string)
    requires blob == "Rothwell, Vivien E JR GTCH" && line == "1 Rothwell, Vivien E JR GTCH 54.00 16"
    ensures line == "1" + " " + (blob + " " + ("54.00" + " " + "16"))
  {
  }

  /** The line of the Rothwell example is its eight words joined by blanks; the middle five join to the name blob. */
  lemma RothwellLine(ws: seq<string>, line: string)
    requires ws == ["1", "Rothwell,", "Vivien", "E", "JR", "GTCH", "54.00", "16"]
    requires line == "1 Rothwell, Vivien E JR GTCH 54.00 16"
    ensures Unwords(ws) == line
    ensures Unwords(ws[1..6]) == "Rothwell, Vivien E JR GTCH" && !Contains(Unwords(ws[1..6]), "DQ")
  {
    var mid := ["Rothwell,", "Vivien", "E", "JR", "GTCH"];
    var blob := "Rothwell, Vivien E JR GTCH";
    assert ws == ["1"] + mid + ["54.00", "16"] && ws[1..6] == mid;
    UnwordsFive("Rothwell,", "Vivien", "E", "JR", "GTCH");
    RothwellBlob(blob, "Rothwell,", "Vivien", "E", "JR", "GTCH");
    RothwellNoDq(blob);
    UnwordsLine("1", mid, "54.00", "16");
    RothwellLineText(line, blob);
    hide Unwords, Contains;
  }

  lemma RothwellWordsOk(ws: seq<string>)
    requires ws == ["1", "Rothwell,", "Vivien", "E", "JR", "GTCH", "54.00", "16"]
    ensures ws[0] != "" && ws[0][0] != '*' && forall w <- ws :: w != "" && NoSpace(w)
    ensures !BrokenDecimal(ws[6], ws[7]) && IsPlace(ws[0]) && PlaceValue(ws[0]) == Some(1)
  {
    assert "1"[..0] == "";
  }

  lemma RothwellTimeShape(t: string)
    requires t == "54.00"
    ensures TimeShape(t) && IsDualTime(t) && DualTimeText(t) == t
  {
    assert t[..2] == "54" && t[3..] == "00";
    SpanDigitsAt(t, 2);
  }

  /** The time column of the Rothwell line: 5400 hundredths. */
  lemma RothwellTime(t: string)
    requires t == "54.00"
    ensures TimeToSeconds(t) == Some(5400)
  {
    RothwellDigits("54", "00");
    assert t == "54" + "." + "00";
    SecondsForm("54", "00");
  }

  lemma RothwellDigits(a: string, f: string)
    requires a == "54" && f == "00"
    ensures a != "" && AllDigits(a) && AllDigits(f) && DigitsValue(a) == 54 && FracHundredths(f) == 0
  {
    assert a[..1] == "5" && "5"[..0] == "";
  }

  /** The points column of the Rothwell line: 16 points, not a standard. */
  lemma RothwellPoints(p: string)
    requires p == "16"
    ensures IsPoints(p) && !IsStandard(p) && Points(Some(p)) == Some(1600)
  {
    assert SpanDigits(p, 0) == 2;
    assert p[..1] == "1" && "1"[..0] == "";
    assert DigitsValue(p) == 16;
  }

  lemma RothwellTeamWord(w: string)
    requires w == "GTCH"
    ensures !IsMarkedDualTime(w)
  {
    assert SpanDigits(w, 0) == 0;
    assert SpanDigits(w[1..], 0) == 0;
  }

  /** The main dual-meet pattern takes the last two words of the Rothwell line as its tail. */
  lemma RothwellTail(ws: seq<string>)
    requires ws == ["1", "Rothwell,", "Vivien", "E", "JR", "GTCH", "54.00", "16"]
    ensures Tail(ws, 1, DualTail) == 2
    ensures DualStandard(ws[6..]) == None && DualPoints(ws[6..]) == Some(1600)
  {
    RothwellTimeShape(ws[6]);
    RothwellPoints(ws[7]);
    RothwellTeamWord(ws[5]);
    assert ws[5..] == ["GTCH", "54.00", "16"] && ws[6..] == ["54.00", "16"];
    hide IsMarkedDualTime, IsDualTime, IsStandard, IsPoints, Points;
    assert !FitsAt(ws, DualTail, 3) && FitsAt(ws, DualTail, 2);
  }

  /** On a page that is not `1col`, a line the main dual-meet pattern reads is read by it. */
  lemma DualLine(line: string, ws: seq<string>, e: EventHeader, fmt: string)
    requires fmt != "1col" && ResultWords(line) == Some(ws)
    requires |ws| >= 2 && !BrokenDecimal(ws[|ws| - 2], ws[|ws| - 1]) && DualMain(ws, e).Some?
    ensures ParseIndividualResult(line, e, fmt) == DualMain(ws, e)
  {
  }

  /**
   * The dual-meet line `1 Rothwell, Vivien E JR GTCH 54.00 16` reads as first
   * place, name `Rothwell, Vivien E`, year JR, team GTCH, finals 54.00 (5400
   * hundredths) and 16 points, with no standard, and is neither a DQ, a scratch
   * nor an exhibition swim.
   */
  lemma RothwellDual(e: EventHeader, fmt: string)
    requires fmt != "1col"
    ensures var r := ParseIndividualResult("1 Rothwell, Vivien E JR GTCH 54.00 16", e, fmt);
      r.Some? && r.value.place == Some(1)
      && r.value.name == "Rothwell, Vivien E" && r.value.year == Some("JR") && r.value.team == "GTCH"
      && r.value.finalsTime == "54.00" && r.value.finalsSeconds == Some(5400)
      && r.value.points == Some(1600) && r.value.timeStandard.None?
      && !r.value.isDq && !r.value.isScratch && !r.value.isExhibition
  {
    hide Unwords, Words, Strip, ExtractNameYearTeam, TimeToSeconds, Contains, Tail, Points, IsPoints,
      IsStandard, DualMain, ParseIndividualResult, ResultWords, IsDualTime, DualTimeText, DualStandard,
      DualPoints, PlaceValue, IsPlace, BrokenDecimal, NoSpace, TimeShape;
    var line := "1 Rothwell, Vivien E JR GTCH 54.00 16";
    var ws := ["1", "Rothwell,", "Vivien", "E", "JR", "GTCH", "54.00", "16"];
    RothwellLine(ws, line);
    RothwellWordsOk(ws);
    ResultWordsOf(ws);
    RothwellTail(ws);
    RothwellTimeShape(ws[6]);
    RothwellTime(ws[6]);
    RothwellVivien();
    assert |ws| - 2 == 6 && ws[1..|ws| - 2] == ws[1..6];
    DualLine(line, ws, e, fmt);
  }

  /**
   * The diving parser as written and the corrected one agree wherever the former
   * returns; where it raises, the corrected one returns a non-scratch result with
   * no seconds.
   */
  lemma DivingCorrection(line: string, e: EventHeader)
    ensures var o := DivingAsWritten(line, e); var r := ParseDivingResult(line, e);
      (o.NoMatch? <==> r.None?)
      && (o.Parsed? ==> r == Some(o.result))
      && (o.Raises? <==> r.Some? && !r.value.isScratch && r.value.finalsSeconds.None?)
  {
    hide DivingSplit, Words, Strip, ExtractNameYearTeam, ParseDecimal;
  }

  lemma DottedScoreWords(line: string, a: string, b: string, c: string)
    requires a == "1" && b == "Ng" && c == "1.2.3" && line == "1 Ng 1.2.3"
    ensures Strip(line) != "" && Words(Strip(line)) == [a, b, c]
  {
    StripKeeps(line);
    assert line == a + " " + (b + " " + c);
    WordsOfThree(a, b, c);
  }

  lemma DottedScoreSplit()
    ensures DivingSplit(["1", "Ng", "1.2.3"]).Some?
    ensures DivingSplit(["1", "Ng", "1.2.3"]).value.score == "1.2.3"
  {
    var ws := ["1", "Ng", "1.2.3"];
    assert DivingScore("Ng").None?;
    assert !FitsAt(ws, DivingTail, 2);
    assert FitsAt(ws, DivingTail, 1);
    assert Tail(ws, 1, DivingTail) == 1;
  }

  /** The diving parser as written raises exactly on a matched score that `float` rejects. */
  lemma DivingRaisesWhen(line: string, e: EventHeader, d: DivingLine)
    requires Strip(line) != "" && DivingSplit(Words(Strip(line))) == Some(d)
    requires d.score != "SCR" && ParseDecimal(d.score).None?
    ensures DivingAsWritten(line, e) == Raises
  {
  }

  /** `float("1.2.3")` raises. */
  lemma DottedScoreRejected()
    ensures ParseDecimal("1.2.3").None?
  {
    assert Strip("1.2.3") == "1.2.3" by { StripKeeps("1.2.3"); }
    assert SpanDigits("1.2.3", 0) == 1;
    assert !AllDigits("2.3") by { assert "2.3"[1] == '.'; }
  }

  lemma DottedScoreParts(line: string) returns (d: DivingLine)
    requires line == "1 Ng 1.2.3"
    ensures Strip(line) != "" && DivingSplit(Words(Strip(line))) == Some(d)
    ensures d.score == "1.2.3" && ParseDecimal(d.score).None?
  {
    hide *;
    DottedScoreWords(line, "1", "Ng", "1.2.3");
    DottedScoreSplit();
    DottedScoreRejected();
    d := DivingSplit(["1", "Ng", "1.2.3"]).value;
  }

  /** `1 Ng 1.2.3`: the score passes `[\d\.]+`, and `float` raises on it. */
  lemma DivingRaisesOnDottedScore(e: EventHeader)
    ensures DivingAsWritten("1 Ng 1.2.3", e) == Raises
  {
    hide *;
    var d := DottedScoreParts("1 Ng 1.2.3");
    DivingRaisesWhen("1 Ng 1.2.3", e, d);
  }

  // -------------------------------------------------------------------------
  // Helper lemmas
  // -------------------------------------------------------------------------

  lemma JoinedWords(pre: seq<string>, w: string, ws: seq<string>)
    requires forall v <- ws :: v != "" && NoSpace(v)
    requires (forall i :: 0 <= i < |pre| ==> pre[i] in ws) && w != "" && NoSpace(w)
    ensures forall v <- pre + [w] :: v != "" && NoSpace(v)
  {
    forall v | v in pre + [w] ensures v != "" && NoSpace(v) {
      if v != w {
        var i :| 0 <= i < |pre + [w]| && (pre + [w])[i] == v;
        assert i < |pre| && pre[i] == v;
      }
    }
  }

  lemma NoSpaceJoin(a: string, b: string)
    requires NoSpace(a) && NoSpace(b)
    ensures NoSpace(a + b)
  {
    forall i | 0 <= i < |a + b| ensures !IsSpace((a + b)[i]) {
      if i < |a| { assert (a + b)[i] == a[i]; } else { assert (a + b)[i] == b[i - |a|]; }
    }
  }

  /** The school starts with the first character of its first word. */
  lemma SchoolStart(ws: seq<string>, s: nat, e: nat)
    requires s < e <= |ws| && forall w <- ws :: w != ""
    ensures ws[s] != ""
    ensures var t := School(ws, s, e); t == "" || t[0] == ws[s][0]
  {
    assert ws[s] in ws;
    UnwordsFirst(ws[s..e]);
  }

  lemma OptionalTime(t: Option<string>)
    requires t.Some? ==> TimeShape(t.value)
    ensures t.Some? ==> TimeToSeconds(t.value).Some?
  {
    if t.Some? { TimeShapeParses(t.value); }
  }

  lemma TimeShapeFirst(t: string)
    requires TimeShape(t)
    ensures t != "" && IsDigit(t[0])
  {
  }

  /** A time has no status word's letters, so `time_to_seconds` reads it. */
  lemma TimeNotStatus(t: string)
    requires TimeShape(t)
    ensures !IsStatusWord(t) && TimeToSeconds(t).Some?
  {
    TimeShapeFirst(t);
    TimeShapeParses(t);
  }

  /** A text whose first character is not stripped is kept whole. */
  lemma KeptByStrip(w: string, cs: string)
    requires w != "" && w[0] !in cs
    ensures LStripAny(w, cs) == w
  {
  }

  lemma CleanTime(w: string)
    requires IsMarkedTime(w)
    ensures TimeShape(LStripAny(w, "xXJ"))
  {
    if TimeShape(w) {
      TimeShapeFirst(w);
      KeptByStrip(w, "xXJ");
    } else {
      TimeShapeFirst(w[1..]);
      KeptByStrip(w[1..], "xXJ");
      assert LStripAny(w, "xXJ") == LStripAny(w[1..], "xXJ");
    }
  }

  lemma CleanStatus(w: string)
    requires w == "SCR" || w == "DQ" || w == "DFS" || w == "NS"
    ensures LStripAny(w, "xXJ") == w && !TimeShape(w) && TimeToSeconds(w).None?
  {
    KeptByStrip(w, "xXJ");
    TimeShapeFirstNot(w);
  }

  lemma CleanedFinals(w: string)
    requires IsFinals(w)
    ensures var c := LStripAny(w, "xXJ");
      (IsMarkedTime(w) ==> TimeShape(c) && TimeToSeconds(c).Some?)
      && (!IsMarkedTime(w) ==> c == w && !TimeShape(c) && TimeToSeconds(c).None?)
  {
    if IsMarkedTime(w) {
      CleanTime(w);
      TimeNotStatus(LStripAny(w, "xXJ"));
    } else {
      CleanStatus(w);
    }
  }

  /** A status word is not a time. */
  lemma TimeShapeFirstNot(w: string)
    requires w == "SCR" || w == "DQ" || w == "DFS" || w == "NS" || w == "NT"
    ensures !TimeShape(w)
  {
    assert !IsDigit(w[0]);
  }

  lemma DualTimeSeconds(w: string)
    requires IsMarkedDualTime(w)
    ensures var t := DualTimeText(w);
      (TimeToSeconds(t).Some? <==> TimeShape(t)) && (t == "SCR" || t == "NS" ==> !TimeShape(t))
  {
    var t := DualTimeText(w);
    if TimeShape(t) { TimeNotStatus(t); } else { TimeShapeFirstNot("SCR"); TimeShapeFirstNot("NS"); }
  }

  lemma RelayFinalsSeconds(w: string)
    requires IsRelayFinals(w)
    ensures var c := LStripAny(w, "xX");
      (TimeToSeconds(c).Some? <==> TimeShape(c)) && (c == "SCR" || c == "NS" ==> !TimeShape(c))
  {
    var c := LStripAny(w, "xX");
    if TimeShape(w) {
      TimeShapeFirst(w);
      KeptByStrip(w, "xX");
      TimeNotStatus(w);
    } else if w != "" && w[0] == 'x' && TimeShape(w[1..]) {
      TimeShapeFirst(w[1..]);
      KeptByStrip(w[1..], "xX");
      assert c == LStripAny(w[1..], "xX");
      TimeNotStatus(w[1..]);
    } else {
      KeptByStrip(w, "xX");
      TimeShapeFirstNot(w);
    }
  }
}
