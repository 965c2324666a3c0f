/**
 * `_extract_name_year_team`: recovering the swimmer's name, class year and
 * team from the text between the place and the times, where the PDF text may
 * have run the year and the team together.  Four strategies are tried in
 * order, then a fallback that keeps the whole text as the name.
 */
module NameRecovery {
  import opened Wrappers
  import opened Text
  import opened Roster

  datatype NameYearTeam = NameYearTeam(name: string, year: Option<string>, team: string)

  /** The class years in the order they are tried. */
  const Years: seq<string> := ["FR", "SO", "JR", "SR", "GS"]

  lemma YearsAreCodes()
    ensures forall i :: 0 <= i < |Years| ==> |Years[i]| == 2 && IsYearCode(Years[i])
  {
  }

  // -------------------------------------------------------------------------
  // Strategy 1: `(FR|SO|JR|SR|GS)([A-Z]{2,5}-[A-Z]{2}|[A-Z]{2,5})\s*$`
  // -------------------------------------------------------------------------

  /** `[A-Z]{2,5}` filling the whole text. */
  predicate IsPlainTeam(r: string) { 2 <= |r| <= 5 && AllUpper(r) }

  /** `[A-Z]{2,5}-[A-Z]{2}` filling the whole text. */
  predicate IsDashTeam(r: string) {
    5 <= |r| <= 8 && r[|r| - 3] == '-' && AllUpper(r[..|r| - 3]) && AllUpper(r[|r| - 2..])
  }

  /** A year code at `p` followed by a team code that runs to the end. */
  predicate YearTeamAt(t: string, p: nat) {
    p + 2 <= |t| && IsYearCode(t[p..p + 2]) && (IsDashTeam(t[p + 2..]) || IsPlainTeam(t[p + 2..]))
  }

  /** The leftmost such position from `p`, or `|t|`. */
  function FirstYearTeam(t: string, p: nat): (q: nat)
    requires p <= |t|
    ensures p <= q <= |t|
    ensures q < |t| ==> YearTeamAt(t, q)
    ensures forall k :: p <= k < q ==> !YearTeamAt(t, k)
    decreases |t| - p
  {
    if p == |t| || YearTeamAt(t, p) then p else FirstYearTeam(t, p + 1)
  }

  /** Strategy 1: the year and team run together at the end, after a name with a comma. */
  function MergedYearTeam(t: string): (r: Option<NameYearTeam>)
    ensures r.Some? ==> r.value.year.Some? && IsYearCode(r.value.year.value) && r.value.team != ""
    ensures r.Some? ==> Collapsed(r.value.name)
  {
    var p := FirstYearTeam(t, 0);
    if p == |t| then None
    else
      var name := Strip(t[..p]);
      CollapseCollapses(name);
      if HasChar(name, ',') then Some(NameYearTeam(Collapse(name), Some(t[p..p + 2]), t[p + 2..])) else None
  }

  // -------------------------------------------------------------------------
  // Strategies 2 and 3: a team code `TEAM-XX`, tried with 5 down to 2 letters
  // -------------------------------------------------------------------------

  /** `-([A-Z]{2})\s*$` on stripped text. */
  predicate DashEnd(t: string) {
    |t| >= 3 && t[|t| - 3] == '-' && IsUpper(t[|t| - 2]) && IsUpper(t[|t| - 1])
  }

  /**
   * The year at the end of the text before the team, trying the years in
   * order: after a blank the name is what precedes it; glued to the name it
   * counts only when the name keeps a comma.
   */
  function YearAtEnd(bt: string, i: nat): (r: Option<(string, string)>)
    requires i <= |Years|
    ensures r.Some? ==> IsYearCode(r.value.1) && Collapsed(r.value.0)
    decreases |Years| - i
  {
    if i == |Years| then None
    else
      var y := Years[i];
      YearsAreCodes();
      if EndsWith(bt, " " + y) then
        CollapseCollapses(Strip(bt[..|bt| - 3]));
        Some((Collapse(Strip(bt[..|bt| - 3])), y))
      else if EndsWith(bt, y) && HasChar(Strip(bt[..|bt| - 2]), ',') then
        CollapseCollapses(Strip(bt[..|bt| - 2]));
        Some((Collapse(Strip(bt[..|bt| - 2])), y))
      else YearAtEnd(bt, i + 1)
  }

  /** `suffix` without the characters at `i` and `j`, `i < j`. */
  function Without(suffix: string, i: nat, j: nat): (r: string)
    requires i < j < |suffix|
    ensures |r| == |suffix| - 2
  {
    suffix[..i] + suffix[i + 1..j] + suffix[j + 1..]
  }

  /**
   * Strategy 3, for year `Years[i]` on: the two letters of the year found in
   * order inside the last word (2 to 4 upper-case characters), with the rest of
   * that word kept as part of the name.
   */
  function GarbledFrom(words: seq<string>, suffix: string, i: nat): (r: Option<(string, string)>)
    requires words != [] && i <= |Years|
    ensures r.Some? ==> IsYearCode(r.value.1) && Collapsed(r.value.0)
    decreases |Years| - i
  {
    if i == |Years| then None
    else
      var y := Years[i];
      YearsAreCodes();
      if HasChar(suffix, y[0]) && HasChar(suffix, y[1]) then
        var i0 := IndexOf(suffix, y[0], 0);
        if HasChar(suffix[i0 + 1..], y[1]) then
          var i1 := IndexOf(suffix, y[1], i0 + 1);
          var remaining := Without(suffix, i0, i1);
          var base := Unwords(words[..|words| - 1]) + (if remaining != "" then " " + remaining else "");
          CollapseCollapses(base);
          if HasChar(base, ',') then Some((Collapse(base), y)) else GarbledFrom(words, suffix, i + 1)
        else GarbledFrom(words, suffix, i + 1)
      else GarbledFrom(words, suffix, i + 1)
  }

  function GarbledYear(bt: string): (r: Option<(string, string)>)
    ensures r.Some? ==> IsYearCode(r.value.1) && Collapsed(r.value.0)
  {
    var words := Words(bt);
    if words == [] then None
    else
      var suffix := words[|words| - 1];
      if 2 <= |suffix| <= 4 && IsUpperWord(suffix) then GarbledFrom(words, suffix, 0) else None
  }

  /** What one team length gives: nothing, a full answer, or a candidate without a year. */
  datatype Attempt = Skip | Found(result: NameYearTeam) | NoYear(name: string, team: string)

  function DashAttempt(t: string, dash: nat, teamLen: nat): (a: Attempt)
    requires dash <= |t|
    ensures a.Found? ==> a.result.year.Some? && IsYearCode(a.result.year.value) && a.result.team != ""
    ensures a.NoYear? ==> a.team != "" && Collapsed(a.name)
    ensures a.Found? ==> Collapsed(a.result.name)
  {
    if dash < teamLen then Skip
    else
      var start := dash - teamLen;
      var team := t[start..];
      if teamLen == 0 || !AllUpper(t[start..dash]) then Skip
      else
        var bt := Strip(t[..start]);
        if !HasChar(bt, ',') then Skip
        else
          match YearAtEnd(bt, 0)
          case Some((name, y)) => Found(NameYearTeam(name, Some(y), team))
          case None =>
            match GarbledYear(bt)
            case Some((name, y)) => Found(NameYearTeam(name, Some(y), team))
            case None => CollapseCollapses(bt); NoYear(Collapse(bt), team)
  }

  /**
   * The loop over team lengths from `teamLen` down to 2; the first candidate
   * without a year (the longest team) is the answer when no length finds a year.
   */
  function DashSearch(t: string, dash: nat, teamLen: nat, best: Option<(string, string)>): (r: Option<NameYearTeam>)
    requires dash <= |t|
    requires best.Some? ==> best.value.1 != "" && Collapsed(best.value.0)
    ensures r.Some? ==> (r.value.year.None? || IsYearCode(r.value.year.value)) && r.value.team != ""
    ensures r.Some? ==> Collapsed(r.value.name)
    decreases teamLen
  {
    if teamLen < 2 then
      match best
      case Some((name, team)) => Some(NameYearTeam(name, None, team))
      case None => None
    else
      match DashAttempt(t, dash, teamLen)
      case Skip => DashSearch(t, dash, teamLen - 1, best)
      case Found(r) => Some(r)
      case NoYear(name, team) => DashSearch(t, dash, teamLen - 1, if best.None? then Some((name, team)) else best)
  }

  // -------------------------------------------------------------------------
  // Strategy 4: `\s([A-Z]{2,6})\s*$`
  // -------------------------------------------------------------------------

  /** The year at the end of the text before the team, and the name before it. */
  function YearSuffix(bt: string, i: nat): (r: (Option<string>, string))
    requires i <= |Years|
    ensures r.0.None? || IsYearCode(r.0.value)
    decreases |Years| - i
  {
    if i == |Years| then (None, bt)
    else
      var y := Years[i];
      YearsAreCodes();
      if EndsWith(bt, " " + y) then (Some(y), Strip(bt[..|bt| - 3]))
      else if EndsWith(bt, y) && |bt| > 2 then (Some(y), Strip(bt[..|bt| - 2]))
      else YearSuffix(bt, i + 1)
  }

  /** Strategy 4: a final run of 2 to 6 capitals after a blank is the team. */
  function PlainTeam(t: string): (r: Option<NameYearTeam>)
    ensures r.Some? ==> (r.value.year.None? || IsYearCode(r.value.year.value)) && r.value.team != ""
    ensures r.Some? ==> Collapsed(r.value.name)
  {
    var k := BackSpanUpper(t, |t|);
    var len := |t| - k;
    if 2 <= len <= 6 && k > 0 && IsSpace(t[k - 1]) then
      var (year, name) := YearSuffix(Strip(t[..k - 1]), 0);
      CollapseCollapses(name);
      StripCollapsed(Collapse(name));
      Some(NameYearTeam(Strip(Collapse(name)), year, t[k..]))
    else None
  }

  // -------------------------------------------------------------------------
  // The strategies in order
  // -------------------------------------------------------------------------

  /** `_extract_name_year_team` */
  function ExtractNameYearTeam(blob: string): (r: NameYearTeam)
    ensures r.year.None? || IsYearCode(r.year.value)
    ensures r.team == "" ==> r == NameYearTeam(Strip(Collapse(Strip(blob))), None, "")
    ensures Collapsed(r.name)
  {
    var t := Strip(blob);
    CollapseCollapses(t);
    StripCollapsed(Collapse(t));
    match MergedYearTeam(t)
    case Some(r) => r
    case None =>
      match (if DashEnd(t) then DashSearch(t, |t| - 3, 5, None) else None)
      case Some(r) => r
      case None =>
        match PlainTeam(t)
        case Some(r) => r
        case None => NameYearTeam(Strip(Collapse(t)), None, "")
  }

  // -------------------------------------------------------------------------
  // The documented layouts
  // -------------------------------------------------------------------------

  lemma YearIndex(y: string) returns (j: nat)
    requires IsYearCode(y)
    ensures j < |Years| && Years[j] == y
  {
    j := if y == "FR" then 0 else if y == "SO" then 1 else if y == "JR" then 2 else if y == "SR" then 3 else 4;
  }

  lemma UpperNotSpace(c: char)
    requires IsUpper(c)
    ensures !IsSpace(c)
  {
  }

  lemma CodeLetters(x: string)
    requires IsYearCode(x)
    ensures |x| == 2 && IsUpper(x[0]) && IsUpper(x[1])
    ensures x[0] == 'F' || x[0] == 'S' || x[0] == 'J' || x[0] == 'G'
  {
  }

  /** A year code at `k`. */
  predicate CodeAt(t: string, k: nat) {
    k + 2 <= |t| && IsYearCode(t[k..k + 2])
  }

  lemma CodeAtShift(a: string, b: string, i: nat)
    ensures CodeAt(a + b, |a| + i) == CodeAt(b, i)
  {
    if i + 2 <= |b| {
      assert (a + b)[|a| + i..|a| + i + 2] == b[i..i + 2];
    }
  }

  lemma TeamNoSpace(r: string)
    ensures IsDashTeam(r) || IsPlainTeam(r) ==> NoSpace(r)
  {
    if IsDashTeam(r) {
      forall i | 0 <= i < |r| ensures !IsSpace(r[i]) {
        if i < |r| - 3 {
          assert r[..|r| - 3][i] == r[i];
        } else if i > |r| - 3 {
          assert r[|r| - 2..][i - (|r| - 2)] == r[i];
        }
      }
    }
  }

  /** A team code that runs to the end never spans a blank. */
  lemma NoTeamAcrossSpace(t: string, k: nat, sp: nat)
    requires k + 2 <= sp < |t| && IsSpace(t[sp])
    ensures !YearTeamAt(t, k)
  {
    var r := t[k + 2..];
    TeamNoSpace(r);
    assert r[sp - k - 2] == t[sp];
  }

  lemma NotCodeAt(t: string, k: nat)
    requires k + 1 < |t| ==> !IsUpper(t[k]) || !IsUpper(t[k + 1])
    ensures !YearTeamAt(t, k)
  {
  }

  lemma ShortRestNoTeam(t: string, k: nat)
    requires k + 4 > |t|
    ensures !YearTeamAt(t, k)
  {
  }

  lemma FirstYearTeamIs(t: string, q: nat)
    requires q <= |t| && (q < |t| ==> YearTeamAt(t, q)) && forall k :: 0 <= k < q ==> !YearTeamAt(t, k)
    ensures FirstYearTeam(t, 0) == q
  {
  }

  lemma NoYearTeamAt(t: string, sp: nat, k: nat)
    requires sp < |t| && IsSpace(t[sp]) && k < |t|
    requires sp < k && k + 4 <= |t| ==> !CodeAt(t, k)
    ensures !YearTeamAt(t, k)
  {
    if k + 2 <= sp {
      NoTeamAcrossSpace(t, k, sp);
    } else if k <= sp {
      NotCodeAt(t, k);
    } else if k + 4 > |t| {
      ShortRestNoTeam(t, k);
    }
  }

  /** No year and team at the end when a blank comes before the last year code. */
  lemma NoYearTeamAfter(t: string, sp: nat)
    requires sp < |t| && IsSpace(t[sp])
    requires forall k :: sp < k && k + 4 <= |t| ==> !CodeAt(t, k)
    ensures FirstYearTeam(t, 0) == |t|
  {
    forall k | 0 <= k < |t| ensures !YearTeamAt(t, k) {
      NoYearTeamAt(t, sp, k);
    }
    hide *;
    FirstYearTeamIs(t, |t|);
  }

  lemma YearsDistinct(i: nat, j: nat)
    requires i < j < |Years|
    ensures Years[i] != Years[j] && " " + Years[i] != " " + Years[j]
  {
    assert (" " + Years[i])[1..] == Years[i] && (" " + Years[j])[1..] == Years[j];
  }

  lemma YearEnd(base: string, y: string)
    requires |y| == 2
    ensures var bt := base + " " + y;
      EndsWith(bt, " " + y) && bt[|bt| - 2..] == y && bt[..|bt| - 3] == base
  {
    var bt := base + " " + y;
    assert bt[|bt| - 2..] == y && bt[|bt| - 3..] == " " + y;
  }

  lemma NotEndsWithOther(bt: string, x: string, y: string)
    requires |x| == 2 && |y| == 2 && EndsWith(bt, " " + y) && x != y && " " + x != " " + y
    ensures !EndsWith(bt, " " + x) && !EndsWith(bt, x)
  {
    assert bt[|bt| - 2..] == (" " + y)[1..] == y;
  }

  lemma YearSuffixSkip(bt: string, i: nat)
    requires i < |Years| && !EndsWith(bt, " " + Years[i]) && !EndsWith(bt, Years[i])
    ensures YearSuffix(bt, i) == YearSuffix(bt, i + 1)
  {
  }

  lemma YearSuffixHit(bt: string, i: nat)
    requires i < |Years| && EndsWith(bt, " " + Years[i])
    ensures YearSuffix(bt, i) == (Some(Years[i]), Strip(bt[..|bt| - 3]))
  {
  }

  lemma {:induction false} YearSuffixSpaced(base: string, j: nat, i: nat)
    requires i <= j < |Years|
    ensures YearSuffix(base + " " + Years[j], i) == (Some(Years[j]), Strip(base))
    decreases j - i
  {
    hide *;
    var bt := base + " " + Years[j];
    YearsAreCodes();
    YearEnd(base, Years[j]);
    if i < j {
      YearsDistinct(i, j);
      NotEndsWithOther(bt, Years[i], Years[j]);
      YearSuffixSkip(bt, i);
      YearSuffixSpaced(base, j, i + 1);
    } else {
      YearSuffixHit(bt, i);
    }
  }

  lemma YearAtEndSkip(bt: string, i: nat)
    requires i < |Years| && !EndsWith(bt, " " + Years[i]) && !EndsWith(bt, Years[i])
    ensures YearAtEnd(bt, i) == YearAtEnd(bt, i + 1)
  {
  }

  lemma YearAtEndHit(bt: string, i: nat)
    requires i < |Years| && EndsWith(bt, " " + Years[i])
    ensures YearAtEnd(bt, i) == Some((Collapse(Strip(bt[..|bt| - 3])), Years[i]))
  {
  }

  lemma {:induction false} YearAtEndSpaced(base: string, j: nat, i: nat)
    requires i <= j < |Years|
    ensures YearAtEnd(base + " " + Years[j], i) == Some((Collapse(Strip(base)), Years[j]))
    decreases j - i
  {
    hide *;
    var bt := base + " " + Years[j];
    YearsAreCodes();
    YearEnd(base, Years[j]);
    if i < j {
      YearsDistinct(i, j);
      NotEndsWithOther(bt, Years[i], Years[j]);
      YearAtEndSkip(bt, i);
      YearAtEndSpaced(base, j, i + 1);
    } else {
      YearAtEndHit(bt, i);
    }
  }

  /** A pair of letters whose second is not `R`, `O` or `S` is no year code. */
  lemma NotCodeSecond(x: string)
    requires |x| == 2 && x[1] != 'R' && x[1] != 'O' && x[1] != 'S'
    ensures !IsYearCode(x)
  {
  }

  lemma CodeAtPrefix(a: string, b: string)
    requires |a| >= 2
    ensures CodeAt(a + b, 0) == CodeAt(a, 0)
  {
    assert (a + b)[0..2] == a[0..2];
  }

  /** Strategy 1 finds nothing in `bt TEAM` when no year code starts inside the team. */
  lemma SpacedTeamNoYear(bt: string, team: string)
    requires forall i :: 0 <= i && i + 4 <= |team| ==> !CodeAt(team, i)
    ensures FirstYearTeam(bt + " " + team, 0) == |bt + " " + team|
  {
    var t := bt + " " + team;
    var sp := |bt|;
    assert t[sp] == ' ';
    forall k | sp < k && k + 4 <= |t| ensures !CodeAt(t, k) {
      CodeAtShift(bt + " ", team, k - sp - 1);
    }
    NoYearTeamAfter(t, sp);
  }

  /** The shape `text TEAM` with a plain team code after a blank. */
  lemma PlainLayout(bt: string, team: string)
    requires bt != "" && !IsSpace(bt[0]) && 2 <= |team| && AllUpper(team)
    requires forall i :: 0 <= i && i + 4 <= |team| ==> !CodeAt(team, i)
    ensures var t := bt + " " + team;
      && Strip(t) == t && FirstYearTeam(t, 0) == |t| && !DashEnd(t)
      && BackSpanUpper(t, |t|) == |bt| + 1 && IsSpace(t[|bt|]) && t[..|bt|] == bt && t[|bt| + 1..] == team
  {
    var t := bt + " " + team;
    var sp := |bt|;
    SpacedTeamNoYear(bt, team);
    UpperRun(bt + " ", team);
    assert t[0] == bt[0] && t[|t| - 1] == team[|team| - 1];
    StripKeeps(t);
    if |team| >= 3 {
      assert t[|t| - 3] == team[|team| - 3];
    }
    assert t[..sp] == bt && t[sp + 1..] == team;
  }

  lemma PlainStep(t: string, k: nat)
    requires 0 < k <= |t| && BackSpanUpper(t, |t|) == k && 2 <= |t| - k <= 6 && IsSpace(t[k - 1])
    ensures PlainTeam(t) == Some(NameYearTeam(Strip(Collapse(YearSuffix(Strip(t[..k - 1]), 0).1)),
      YearSuffix(Strip(t[..k - 1]), 0).0, t[k..]))
  {
  }

  lemma ExtractPlain(t: string)
    requires Strip(t) == t && FirstYearTeam(t, 0) == |t| && !DashEnd(t) && PlainTeam(t).Some?
    ensures ExtractNameYearTeam(t) == PlainTeam(t).value
  {
  }

  /** `Name, First [M] YR TEAM`: a blank before the year and before a plain team code. */
  lemma SpacedPlainTeam(name: string, y: string, team: string)
    requires name != "" && !IsSpace(name[0]) && IsYearCode(y)
    requires 2 <= |team| <= 6 && AllUpper(team)
    requires forall i :: 0 <= i && i + 4 <= |team| ==> !CodeAt(team, i)
    ensures ExtractNameYearTeam(name + " " + y + " " + team) ==
      NameYearTeam(Strip(Collapse(Strip(name))), Some(y), team)
  {
    var bt := name + " " + y;
    var t := bt + " " + team;
    var j := YearIndex(y);
    CodeLetters(y);
    assert bt[0] == name[0] && bt[|bt| - 1] == y[1];
    StripKeeps(bt);
    PlainLayout(bt, team);
    YearSuffixSpaced(name, j, 0);
    hide *;
    PlainStep(t, |bt| + 1);
    ExtractPlain(t);
  }

  /** Strategy 1 succeeds at `p`. */
  lemma MergedStep(t: string, p: nat)
    requires Strip(t) == t && FirstYearTeam(t, 0) == p < |t| && HasChar(Strip(t[..p]), ',')
    ensures ExtractNameYearTeam(t) == NameYearTeam(Collapse(Strip(t[..p])), Some(t[p..p + 2]), t[p + 2..])
  {
  }

  /** No year and team starts before the year in `pre [w]YRTEAM`. */
  lemma MergedEarlier(pre: string, w: string, y: string, team: string)
    requires |w| <= 1 && IsYearCode(y) && (w != "" ==> !CodeAt(w + y, 0))
    ensures var head := pre + " " + w; forall k :: 0 <= k < |head| ==> !YearTeamAt(head + y + team, k)
  {
    var head := pre + " " + w;
    var t := head + y + team;
    var sp := |pre|;
    Assoc(pre + " ", w + y, team);
    assert t == (pre + " ") + (w + y + team);
    assert IsSpace(t[sp]);
    hide *;
    CodeAtShift(pre + " ", w + y + team, 0);
    if w != "" {
      CodeAtPrefix(w + y, team);
    }
    forall k | 0 <= k < |head| ensures !YearTeamAt(t, k) {
      NoYearTeamAt(t, sp, k);
    }
  }

  /** The shape `pre [w]YRTEAM`: at most one character glued before the year. */
  lemma MergedLayout(pre: string, w: string, y: string, team: string)
    requires pre != "" && !IsSpace(pre[0]) && |w| <= 1 && IsYearCode(y) && (IsDashTeam(team) || IsPlainTeam(team))
    requires w != "" ==> !CodeAt(w + y, 0)
    ensures var head := pre + " " + w; var t := head + y + team;
      && FirstYearTeam(t, 0) == |head| && Strip(t) == t
      && t[..|head|] == head && t[|head|..|head| + 2] == y && t[|head| + 2..] == team
  {
    var head := pre + " " + w;
    var t := head + y + team;
    MergedEarlier(pre, w, y, team);
    assert t[|head|..|head| + 2] == y && t[|head| + 2..] == team && t[..|head|] == head;
    assert YearTeamAt(t, |head|);
    TeamNoSpace(team);
    assert t[0] == pre[0] && t[|t| - 1] == team[|team| - 1];
    hide *;
    FirstYearTeamIs(t, |head|);
    StripKeeps(t);
  }

  /**
   * `Name, First M YRTEAM` and `Name, First MYRTEAM`: the year runs into the
   * team code, and at most one letter of the name runs into the year.
   */
  lemma MergedTeam(pre: string, w: string, y: string, team: string)
    requires pre != "" && !IsSpace(pre[0]) && !IsSpace(pre[|pre| - 1]) && HasChar(pre, ',')
    requires |w| <= 1 && (w != "" ==> !IsSpace(w[0]) && !CodeAt(w + y, 0))
    requires IsYearCode(y) && (IsDashTeam(team) || IsPlainTeam(team))
    ensures ExtractNameYearTeam(pre + " " + w + y + team) ==
      NameYearTeam(Collapse(if w == "" then pre else pre + " " + w), Some(y), team)
  {
    var head := pre + " " + w;
    var t := head + y + team;
    HasCharAppend(pre, " " + w, ',');
    Assoc(pre, " ", w);
    if w == "" {
      assert head == pre + " ";
      StripBlankEnd(pre);
    } else {
      assert head[0] == pre[0] && head[|head| - 1] == w[0];
      StripKeeps(head);
    }
    hide *;
    MergedLayout(pre, w, y, team);
    MergedStep(t, |head|);
  }

  lemma DashSkipStep(t: string, dash: nat, teamLen: nat, best: Option<(string, string)>)
    requires dash <= |t| && teamLen >= 2 && DashAttempt(t, dash, teamLen) == Skip
    requires best.Some? ==> best.value.1 != "" && Collapsed(best.value.0)
    ensures DashSearch(t, dash, teamLen, best) == DashSearch(t, dash, teamLen - 1, best)
  {
  }

  lemma DashFoundStep(t: string, dash: nat, teamLen: nat, best: Option<(string, string)>)
    requires dash <= |t| && teamLen >= 2 && DashAttempt(t, dash, teamLen).Found?
    requires best.Some? ==> best.value.1 != "" && Collapsed(best.value.0)
    ensures DashSearch(t, dash, teamLen, best) == Some(DashAttempt(t, dash, teamLen).result)
  {
  }

  /** A team length that reaches back over a blank is skipped. */
  lemma DashAttemptSpace(t: string, dash: nat, teamLen: nat, sp: nat)
    requires sp < dash <= |t| && IsSpace(t[sp]) && dash - teamLen <= sp
    ensures DashAttempt(t, dash, teamLen) == Skip
  {
    if teamLen <= dash {
      var start := dash - teamLen;
      assert t[start..dash][sp - start] == t[sp];
    }
  }

  lemma {:induction false} DashSkipsDown(t: string, dash: nat, sp: nat, from: nat, to: nat)
    requires sp < dash <= |t| && IsSpace(t[sp]) && dash - sp - 1 <= to <= from && 1 <= to
    ensures DashSearch(t, dash, from, None) == DashSearch(t, dash, to, None)
    decreases from
  {
    if from > to {
      DashAttemptSpace(t, dash, from, sp);
      DashSkipStep(t, dash, from, None);
      DashSkipsDown(t, dash, sp, from - 1, to);
    }
  }

  lemma DashAttemptFound(t: string, dash: nat, teamLen: nat, name: string, y: string)
    requires 1 <= teamLen <= dash <= |t| && AllUpper(t[dash - teamLen..dash])
    requires HasChar(Strip(t[..dash - teamLen]), ',')
    requires YearAtEnd(Strip(t[..dash - teamLen]), 0) == Some((name, y))
    ensures DashAttempt(t, dash, teamLen) == Found(NameYearTeam(name, Some(y), t[dash - teamLen..]))
  {
  }

  lemma MergedNone(t: string)
    requires FirstYearTeam(t, 0) == |t|
    ensures MergedYearTeam(t) == None
  {
  }

  lemma ExtractDash(t: string, r: NameYearTeam)
    requires Strip(t) == t && MergedYearTeam(t) == None && DashEnd(t) && DashSearch(t, |t| - 3, 5, None) == Some(r)
    ensures ExtractNameYearTeam(t) == r
  {
    hide Strip, Collapse, Collapsed, MergedYearTeam, DashSearch, PlainTeam, DashEnd;
  }

  /** The shape `bt PRE-SU` with a dash team code after a blank. */
  lemma DashLayout(bt: string, pre: string, suf: string)
    requires bt != "" && !IsSpace(bt[0]) && 2 <= |pre| <= 5 && AllUpper(pre) && |suf| == 2 && AllUpper(suf)
    requires forall i :: 0 <= i && i + 4 <= |pre + "-" + suf| ==> !CodeAt(pre + "-" + suf, i)
    ensures var t := bt + " " + pre + "-" + suf; var dash := |t| - 3;
      && Strip(t) == t && FirstYearTeam(t, 0) == |t| && DashEnd(t)
      && DashSearch(t, dash, 5, None) == DashSearch(t, dash, |pre|, None)
      && t[..dash - |pre|] == bt + " " && t[dash - |pre|..dash] == pre && t[dash - |pre|..] == pre + "-" + suf
  {
    var team := pre + "-" + suf;
    var t := bt + " " + pre + "-" + suf;
    Assoc(bt + " " + pre, "-", suf);
    Assoc(bt + " ", pre, "-" + suf);
    Assoc(pre, "-", suf);
    assert t == (bt + " ") + team;
    var sp := |bt|;
    var dash := |t| - 3;
    assert t[sp] == ' ' && t[0] == bt[0];
    assert t[|t| - 1] == suf[1] && t[|t| - 2] == suf[0] && t[dash] == '-';
    assert t[..dash - |pre|] == bt + " " && t[dash - |pre|..dash] == pre && t[dash - |pre|..] == team;
    hide *;
    SpacedTeamNoYear(bt, team);
    StripKeeps(t);
    DashSkipsDown(t, dash, sp, 5, |pre|);
    DashEndOf(t, suf);
  }

  lemma DashEndOf(t: string, suf: string)
    requires |t| >= 3 && t[|t| - 3] == '-' && |suf| == 2 && AllUpper(suf) && t[|t| - 1] == suf[1] && t[|t| - 2] == suf[0]
    ensures DashEnd(t)
  {
  }

  /** `Name, First [M] YR PRE-SU`: a blank before the year and before a dash team code. */
  lemma SpacedDashTeam(name: string, y: string, pre: string, suf: string)
    requires name != "" && !IsSpace(name[0]) && HasChar(name, ',') && IsYearCode(y)
    requires 2 <= |pre| <= 5 && AllUpper(pre) && |suf| == 2 && AllUpper(suf)
    requires forall i :: 0 <= i && i + 4 <= |pre + "-" + suf| ==> !CodeAt(pre + "-" + suf, i)
    ensures ExtractNameYearTeam(name + " " + y + " " + pre + "-" + suf) ==
      NameYearTeam(Collapse(Strip(name)), Some(y), pre + "-" + suf)
  {
    hide *;
    var bt := name + " " + y;
    var t := bt + " " + pre + "-" + suf;
    var j := YearIndex(y);
    var dash := |t| - 3;
    CodeLetters(y);
    UpperNotSpace(y[1]);
    assert bt[0] == name[0] && bt[|bt| - 1] == y[1];
    HasCharAppend(name, " " + y, ',');
    Assoc(name, " ", y);
    StripBlankEnd(bt);
    DashLayout(bt, pre, suf);
    YearAtEndSpaced(name, j, 0);
    DashAttemptFound(t, dash, |pre|, Collapse(Strip(name)), y);
    DashFoundStep(t, dash, |pre|, None);
    MergedNone(t);
    ExtractDash(t, NameYearTeam(Collapse(Strip(name)), Some(y), pre + "-" + suf));
  }

  /** A pair of letters that does not start like a class year is no year code. */
  lemma NotCodeFirst(x: string)
    requires |x| == 2 && x[0] != 'F' && x[0] != 'S' && x[0] != 'J' && x[0] != 'G'
    ensures !IsYearCode(x)
  {
  }

  /** A name that is already stripped and collapsed is kept as it is. */
  lemma NameKept(name: string)
    requires name != "" && !IsSpace(name[0]) && !IsSpace(name[|name| - 1]) && Collapsed(name)
    ensures Strip(name) == name && Collapse(name) == name && Strip(Collapse(Strip(name))) == name
  {
    StripKeeps(name);
    CollapseKeeps(name);
  }

  // The examples documented with `_extract_name_year_team`.  Each is split
  // into the facts about its text and the layout lemma that applies.

  /** A plain-team layout whose name is already clean. */
  lemma PlainExample(name: string, y: string, team: string)
    requires name != "" && !IsSpace(name[0]) && !IsSpace(name[|name| - 1]) && Collapsed(name)
    requires IsYearCode(y) && 2 <= |team| <= 6 && AllUpper(team)
    requires forall i :: 0 <= i && i + 4 <= |team| ==> !CodeAt(team, i)
    ensures ExtractNameYearTeam(name + " " + y + " " + team) == NameYearTeam(name, Some(y), team)
  {
    NameKept(name);
    hide *;
    SpacedPlainTeam(name, y, team);
  }

  lemma RothwellParts(name: string, y: string, team: string, blob: string)
    requires name == "Rothwell, Vivien E" && y == "JR" && team == "GTCH" && blob == "Rothwell, Vivien E JR GTCH"
    ensures blob == name + " " + y + " " + team
    ensures name != "" && !IsSpace(name[0]) && !IsSpace(name[|name| - 1]) && Collapsed(name)
    ensures IsYearCode(y) && 2 <= |team| <= 6 && AllUpper(team)
    ensures forall i :: 0 <= i && i + 4 <= |team| ==> !CodeAt(team, i)
  {
    NotCodeSecond(team[0..2]);
  }

  /** `'Rothwell, Vivien E JR GTCH'` */
  lemma RothwellVivien()
    ensures ExtractNameYearTeam("Rothwell, Vivien E JR GTCH") == NameYearTeam("Rothwell, Vivien E", Some("JR"), "GTCH")
  {
    hide *;
    RothwellParts("Rothwell, Vivien E", "JR", "GTCH", "Rothwell, Vivien E JR GTCH");
    PlainExample("Rothwell, Vivien E", "JR", "GTCH");
  }

  lemma CrushParts(name: string, y: string, team: string, blob: string)
    requires name == "Crush, Johnny R" && y == "SO" && team == "ARMY" && blob == "Crush, Johnny R SO ARMY"
    ensures blob == name + " " + y + " " + team
    ensures name != "" && !IsSpace(name[0]) && !IsSpace(name[|name| - 1]) && Collapsed(name)
    ensures IsYearCode(y) && 2 <= |team| <= 6 && AllUpper(team)
    ensures forall i :: 0 <= i && i + 4 <= |team| ==> !CodeAt(team, i)
  {
    NotCodeFirst(team[0..2]);
  }

  /** `'Crush, Johnny R SO ARMY'` */
  lemma CrushJohnny()
    ensures ExtractNameYearTeam("Crush, Johnny R SO ARMY") == NameYearTeam("Crush, Johnny R", Some("SO"), "ARMY")
  {
    hide *;
    CrushParts("Crush, Johnny R", "SO", "ARMY", "Crush, Johnny R SO ARMY");
    PlainExample("Crush, Johnny R", "SO", "ARMY");
  }

  lemma BrownParts(name: string, y: string, team: string, blob: string)
    requires name == "Brown, Allison" && y == "SR" && team == "GTCH" && blob == "Brown, Allison SR GTCH"
    ensures blob == name + " " + y + " " + team
    ensures name != "" && !IsSpace(name[0]) && !IsSpace(name[|name| - 1]) && Collapsed(name)
    ensures IsYearCode(y) && 2 <= |team| <= 6 && AllUpper(team)
    ensures forall i :: 0 <= i && i + 4 <= |team| ==> !CodeAt(team, i)
  {
    NotCodeSecond(team[0..2]);
  }

  /** `'Brown, Allison SR GTCH'` */
  lemma BrownAllison()
    ensures ExtractNameYearTeam("Brown, Allison SR GTCH") == NameYearTeam("Brown, Allison", Some("SR"), "GTCH")
  {
    hide *;
    BrownParts("Brown, Allison", "SR", "GTCH", "Brown, Allison SR GTCH");
    PlainExample("Brown, Allison", "SR", "GTCH");
  }

  lemma ScarTeam(pre: string, suf: string)
    requires pre == "SCAR" && suf == "SC"
    ensures 2 <= |pre| <= 5 && AllUpper(pre) && |suf| == 2 && AllUpper(suf)
    ensures forall i :: 0 <= i && i + 4 <= |pre + "-" + suf| ==> !CodeAt(pre + "-" + suf, i)
  {
    var team := pre + "-" + suf;
    NotCodeSecond(team[0..2]);
    NotCodeFirst(team[1..3]);
    NotCodeFirst(team[2..4]);
    NotCodeFirst(team[3..5]);
  }

  lemma ProsinskiParts(name: string, y: string, pre: string, suf: string, blob: string)
    requires name == "Prosinski, Raymond P" && y == "JR" && pre == "SCAR" && suf == "SC"
    requires blob == "Prosinski, Raymond P JR SCAR-SC"
    ensures blob == name + " " + y + " " + pre + "-" + suf && pre + "-" + suf == "SCAR-SC"
    ensures name != "" && !IsSpace(name[0]) && !IsSpace(name[|name| - 1]) && Collapsed(name) && HasChar(name, ',')
    ensures IsYearCode(y)
  {
    assert name[9] == ',';
  }

  /** `'Prosinski, Raymond P JR SCAR-SC'` */
  lemma ProsinskiRaymond()
    ensures ExtractNameYearTeam("Prosinski, Raymond P JR SCAR-SC") ==
      NameYearTeam("Prosinski, Raymond P", Some("JR"), "SCAR-SC")
  {
    hide *;
    var name := "Prosinski, Raymond P";
    ProsinskiParts(name, "JR", "SCAR", "SC", "Prosinski, Raymond P JR SCAR-SC");
    ScarTeam("SCAR", "SC");
    NameKept(name);
    SpacedDashTeam(name, "JR", "SCAR", "SC");
  }

  lemma RichardsonParts(pre: string, w: string, y: string, team: string, blob: string, name: string)
    requires pre == "Richardson, Chris" && w == "E" && y == "SR" && team == "GTCH-GA"
    requires blob == "Richardson, Chris ESRGTCH-GA" && name == "Richardson, Chris E"
    ensures blob == pre + " " + w + y + team && name == pre + " " + w
    ensures pre != "" && !IsSpace(pre[0]) && !IsSpace(pre[|pre| - 1]) && HasChar(pre, ',')
    ensures |w| <= 1 && (w != "" ==> !IsSpace(w[0]) && !CodeAt(w + y, 0))
    ensures IsYearCode(y) && (IsDashTeam(team) || IsPlainTeam(team))
    ensures name != "" && !IsSpace(name[0]) && !IsSpace(name[|name| - 1]) && Collapsed(name)
  {
    NotCodeFirst((w + y)[0..2]);
    assert pre[10] == ',';
  }

  /** `'Richardson, Chris ESRGTCH-GA'` */
  lemma RichardsonChris()
    ensures ExtractNameYearTeam("Richardson, Chris ESRGTCH-GA") ==
      NameYearTeam("Richardson, Chris E", Some("SR"), "GTCH-GA")
  {
    hide *;
    var pre, w, y, team := "Richardson, Chris", "E", "SR", "GTCH-GA";
    RichardsonParts(pre, w, y, team, "Richardson, Chris ESRGTCH-GA", "Richardson, Chris E");
    NameKept("Richardson, Chris E");
    MergedTeam(pre, w, y, team);
  }

  lemma DaltonParts(pre: string, w: string, y: string, team: string, blob: string)
    requires pre == "Dalton, Alexis S" && w == "" && y == "FR" && team == "SCAR-SC"
    requires blob == "Dalton, Alexis S FRSCAR-SC"
    ensures blob == pre + " " + w + y + team
    ensures pre != "" && !IsSpace(pre[0]) && !IsSpace(pre[|pre| - 1]) && HasChar(pre, ',') && Collapsed(pre)
    ensures |w| <= 1 && IsYearCode(y) && (IsDashTeam(team) || IsPlainTeam(team))
  {
    assert pre[6] == ',';
  }

  /** `'Dalton, Alexis S FRSCAR-SC'` */
  lemma DaltonAlexis()
    ensures ExtractNameYearTeam("Dalton, Alexis S FRSCAR-SC") == NameYearTeam("Dalton, Alexis S", Some("FR"), "SCAR-SC")
  {
    hide *;
    var pre, w, y, team := "Dalton, Alexis S", "", "FR", "SCAR-SC";
    DaltonParts(pre, w, y, team, "Dalton, Alexis S FRSCAR-SC");
    NameKept(pre);
    MergedTeam(pre, w, y, team);
  }
}
