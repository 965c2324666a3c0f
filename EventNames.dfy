// Event-name helpers of the desktop front end: the stroke an event name
// mentions, the names given to saved relay legs, the filter normalisation that
// drops a gender prefix and a relay suffix, and the LIKE pattern for a stroke.

module EventNames {
  import opened Text
  import opened Times
  import opened Wrappers

  datatype Stroke = Freestyle | Backstroke | Breaststroke | Butterfly

  /** The stroke as the front end spells it. */
  function StrokeName(s: Stroke): string {
    match s
    case Freestyle => "Freestyle"
    case Backstroke => "Backstroke"
    case Breaststroke => "Breaststroke"
    case Butterfly => "Butterfly"
  }

  /** The order in which `extract_stroke` looks for the strokes. */
  function Rank(s: Stroke): nat {
    match s
    case Freestyle => 0
    case Backstroke => 1
    case Breaststroke => 2
    case Butterfly => 3
  }

  /** Whether a lower-cased event name carries a word `extract_stroke` reads as stroke `s`. */
  predicate Mentions(l: string, s: Stroke) {
    match s
    case Freestyle => Contains(l, "free")
    case Backstroke => Contains(l, "back")
    case Breaststroke => Contains(l, "breast")
    case Butterfly => Contains(l, "fly") || Contains(l, "butter")
  }

  /**
   * `extract_stroke`: the first stroke, in the order free, back, breast, fly,
   * whose word the lower-cased name contains; none otherwise (an IM or medley
   * name included).
   */
  function ExtractStroke(eventName: string): (r: Option<Stroke>)
    ensures r.Some? ==> Mentions(Lower(eventName), r.value)
    ensures r.Some? ==> forall t :: Rank(t) < Rank(r.value) ==> !Mentions(Lower(eventName), t)
    ensures r.None? ==> forall t :: !Mentions(Lower(eventName), t)
  {
    var l := Lower(eventName);
    if Contains(l, "free") then Some(Freestyle)
    else if Contains(l, "back") then Some(Backstroke)
    else if Contains(l, "breast") then Some(Breaststroke)
    else if Contains(l, "fly") || Contains(l, "butter") then Some(Butterfly)
    else if Contains(l, "im") || Contains(l, "medley") then None
    else None
  }

  // -------------------------------------------------------------------------
  // The events `save_relay_legs` writes for each leg
  // -------------------------------------------------------------------------

  /** The legs' strokes: medley order for a medley relay, else four freestyle legs. */
  function LegStrokes(eventName: string): (r: seq<Stroke>)
    ensures |r| == 4
    ensures Contains(eventName, "Medley") ==> r == [Backstroke, Breaststroke, Butterfly, Freestyle]
    ensures !Contains(eventName, "Medley") ==> forall s <- r :: s == Freestyle
  {
    if Contains(eventName, "Medley") then [Backstroke, Breaststroke, Butterfly, Freestyle]
    else [Freestyle, Freestyle, Freestyle, Freestyle]
  }

  /** The stroke of the leg at position `i`; a fifth swimmer onwards swims freestyle. */
  function LegStroke(eventName: string, i: nat): Stroke {
    var strokes := LegStrokes(eventName);
    if i < |strokes| then strokes[i] else Freestyle
  }

  /** The leg type: the swimmer recorded on leg 1 led off. */
  function LegType(leg: nat): string {
    if leg == 1 then "lead-off" else "relay"
  }

  /** `f"{leg_distance} {leg_stroke} ({leg_type})"`. */
  function LegEvent(legDistance: nat, s: Stroke, leg: nat): string {
    NatToString(legDistance) + LegTail(s, leg)
  }

  function LegTail(s: Stroke, leg: nat): string {
    " " + StrokeName(s) + " (" + LegType(leg) + ")"
  }

  // -------------------------------------------------------------------------
  // Filter normalisation
  // -------------------------------------------------------------------------

  /** `strip_gender_prefix`: one leading "Women " or "Men ", case as written. */
  function StripGenderPrefix(e: string): (r: string)
    ensures StartsWith(e, "Women ") ==> e == "Women " + r
    ensures !StartsWith(e, "Women ") && StartsWith(e, "Men ") ==> e == "Men " + r
    ensures !StartsWith(e, "Women ") && !StartsWith(e, "Men ") ==> r == e
  {
    if StartsWith(e, "Women ") then e[6..]
    else if StartsWith(e, "Men ") then e[4..]
    else e
  }

  /** Whether `t` ends with the lower-case `suffix`, ignoring the case of `t`. */
  predicate EndsWithCI(t: string, suffix: string) {
    |suffix| <= |t| && Lower(t[|t| - |suffix|..]) == suffix
  }

  /**
   * `strip_event_suffixes`: a trailing "(relay)" or "(lead-off)", in any case and
   * with the blanks around it, is cut off, and the rest stripped. The pattern is
   * anchored at the end, so at most one suffix goes.
   */
  function StripEventSuffixes(e: string): (r: string)
    ensures |r| <= |e|
    ensures r != "" ==> !IsSpace(r[0]) && !IsSpace(r[|r| - 1])
  {
    var t := RStrip(e);
    if EndsWithCI(t, "(relay)") then Strip(t[..|t| - 7])
    else if EndsWithCI(t, "(lead-off)") then Strip(t[..|t| - 10])
    else Strip(e)
  }

  function NormalizeEventForFilter(e: string): string {
    StripEventSuffixes(StripGenderPrefix(e))
  }

  // -------------------------------------------------------------------------
  // get_stroke_pattern
  // -------------------------------------------------------------------------

  /** `get_stroke_pattern`: a LIKE pattern for the known strokes, `%stroke%` for anything else. */
  function StrokePattern(stroke: string): string {
    if stroke == "Freestyle" then "%Free%"
    else if stroke == "Backstroke" then "%Back%"
    else if stroke == "Breaststroke" then "%Breast%"
    else if stroke == "Butterfly" then "%Fly%"
    else if stroke == "IM" then "%IM%"
    else "%" + stroke + "%"
  }

  /** SQLite's `text LIKE '%w%'`: `w` occurs in `text`, ignoring ASCII case. */
  predicate LikeAnywhere(pattern: string, text: string) {
    |pattern| >= 2 && pattern[0] == '%' && pattern[|pattern| - 1] == '%'
    && Contains(Lower(text), Lower(pattern[1..|pattern| - 1]))
  }

  // -------------------------------------------------------------------------
  // Properties
  // -------------------------------------------------------------------------

  lemma LowerAppend(a: string, b: string)
    ensures Lower(a + b) == Lower(a) + Lower(b)
  {
  }

  lemma LowerDigits(a: string)
    requires AllDigits(a)
    ensures Lower(a) == a
  {
  }

  /** A word that does not start with a digit cannot start inside a run of digits. */
  lemma {:induction false} ContainsAfterDigits(a: string, b: string, w: string)
    requires AllDigits(a) && w != "" && !IsDigit(w[0])
    ensures Contains(a + b, w) <==> Contains(b, w)
    decreases |a|
  {
    if a != "" {
      assert (a + b)[0] == a[0];
      assert (a + b)[1..] == a[1..] + b;
      ContainsAfterDigits(a[1..], b, w);
    } else {
      assert a + b == b;
    }
  }

  /** The lower-cased name of a saved leg: the distance digits, then a fixed tail. */
  lemma LowerLegEvent(d: nat, s: Stroke, leg: nat)
    ensures Lower(LegEvent(d, s, leg)) == NatToString(d) + Lower(LegTail(s, leg))
  {
    hide LegTail, Lower;
    LowerAppend(NatToString(d), LegTail(s, leg));
    LowerDigits(NatToString(d));
  }

  /** No two adjacent characters of `s` are `a` then `b`. */
  predicate LacksPair(s: string, a: char, b: char) {
    forall k :: 0 <= k < |s| - 1 ==> !(s[k] == a && s[k + 1] == b)
  }

  /** A text without some pair of adjacent characters of `w` does not contain `w`. */
  lemma {:induction false} LacksPairNotContains(s: string, w: string, i: nat)
    requires i + 1 < |w| && LacksPair(s, w[i], w[i + 1])
    ensures !Contains(s, w)
    decreases |s|
  {
    if |w| <= |s| {
      assert s[..|w|][i] == s[i] && s[..|w|][i + 1] == s[i + 1];
    }
    if s != "" {
      LacksPairNotContains(s[1..], w, i);
    }
  }

  function LowerName(s: Stroke): string {
    match s
    case Freestyle => "freestyle"
    case Backstroke => "backstroke"
    case Breaststroke => "breaststroke"
    case Butterfly => "butterfly"
  }

  lemma LowerIs(x: string, y: string)
    requires |x| == |y| && forall i :: 0 <= i < |x| ==> ToLower(x[i]) == y[i]
    ensures Lower(x) == y
  {
  }

  lemma LowerStrokeName(s: Stroke)
    ensures Lower(StrokeName(s)) == LowerName(s)
  {
    hide Lower;
    match s {
      case Freestyle => LowerIs("Freestyle", "freestyle");
      case Backstroke => LowerIs("Backstroke", "backstroke");
      case Breaststroke => LowerIs("Breaststroke", "breaststroke");
      case Butterfly => LowerIs("Butterfly", "butterfly");
    }
  }

  lemma LowerLegType(leg: nat)
    ensures Lower(LegType(leg)) == LegType(leg)
  {
  }

  lemma LowerPunctuation()
    ensures Lower(" ") == " " && Lower(" (") == " (" && Lower(")") == ")"
  {
  }

  /** The lower-cased tail of a saved leg's name. */
  function TailText(s: Stroke, leg: nat): string {
    " " + LowerName(s) + " (" + LegType(leg) + ")"
  }

  lemma LowerTail(s: Stroke, leg: nat)
    ensures Lower(LegTail(s, leg)) == TailText(s, leg)
  {
    hide Lower, StrokeName, LowerName, LegType;
    LowerStrokeName(s);
    LowerLegType(leg);
    LowerPunctuation();
    LowerAppend(" ", StrokeName(s));
    LowerAppend(" " + StrokeName(s), " (");
    LowerAppend(" " + StrokeName(s) + " (", LegType(leg));
    LowerAppend(" " + StrokeName(s) + " (" + LegType(leg), ")");
  }

  lemma {:induction false} ContainsLeft(a: string, b: string, w: string)
    requires Contains(b, w)
    ensures Contains(a + b, w)
    decreases |a|
  {
    if a == "" {
      assert a + b == b;
    } else {
      ContainsLeft(a[1..], b, w);
      assert (a + b)[1..] == a[1..] + b;
    }
  }

  lemma {:induction false} ContainsRight(a: string, b: string, w: string)
    requires Contains(a, w)
    ensures Contains(a + b, w)
    decreases |a|
  {
    if StartsWith(a, w) {
      assert (a + b)[..|w|] == a[..|w|];
    } else {
      ContainsRight(a[1..], b, w);
      assert (a + b)[1..] == a[1..] + b;
    }
  }

  /** Two texts joined where a letter cannot meet a letter keep lacking a pair of letters. */
  lemma LacksPairAppend(a: string, b: string, x: char, y: char)
    requires IsLetter(x) && IsLetter(y)
    requires LacksPair(a, x, y) && LacksPair(b, x, y)
    requires a != [] && b != [] ==> !IsLetter(a[|a| - 1]) || !IsLetter(b[0])
    ensures LacksPair(a + b, x, y)
  {
    var s := a + b;
    forall k | 0 <= k < |s| - 1 ensures !(s[k] == x && s[k + 1] == y) {
      if k + 1 < |a| {
        assert s[k] == a[k] && s[k + 1] == a[k + 1];
      } else if k >= |a| {
        assert s[k] == b[k - |a|] && s[k + 1] == b[k + 1 - |a|];
      }
    }
  }

  /** Neither leg type carries a pair that starts a stroke word. */
  lemma LeadOffPairs()
    ensures var t := "lead-off";
      LacksPair(t, 'f', 'r') && LacksPair(t, 'b', 'a') && LacksPair(t, 'b', 'r')
      && LacksPair(t, 'f', 'l') && LacksPair(t, 'b', 'u')
  {
  }

  lemma RelayPairs()
    ensures var t := "relay";
      LacksPair(t, 'f', 'r') && LacksPair(t, 'b', 'a') && LacksPair(t, 'b', 'r')
      && LacksPair(t, 'f', 'l') && LacksPair(t, 'b', 'u')
  {
  }

  lemma LegTypePairs(leg: nat)
    ensures LacksPair(LegType(leg), 'f', 'r') && LacksPair(LegType(leg), 'b', 'a')
    ensures LacksPair(LegType(leg), 'b', 'r') && LacksPair(LegType(leg), 'f', 'l')
    ensures LacksPair(LegType(leg), 'b', 'u')
  {
    hide LacksPair;
    if leg == 1 { LeadOffPairs(); } else { RelayPairs(); }
  }

  /** A pair missing from the stroke name and the leg type is missing from the whole tail. */
  lemma TailLacks(s: Stroke, leg: nat, x: char, y: char)
    requires IsLetter(x) && IsLetter(y)
    requires LacksPair(LowerName(s), x, y) && LacksPair(LegType(leg), x, y)
    ensures LacksPair(TailText(s, leg), x, y)
  {
    var n, t := LowerName(s), LegType(leg);
    assert LacksPair(" ", x, y) && LacksPair(" (", x, y) && LacksPair(")", x, y);
    LacksPairAppend(" ", n, x, y);
    LacksPairAppend(" " + n, " (", x, y);
    LacksPairAppend(" " + n + " (", t, x, y);
    LacksPairAppend(" " + n + " (" + t, ")", x, y);
  }

  /** A word in the stroke name is in the whole tail. */
  lemma TailHas(s: Stroke, leg: nat, w: string)
    requires Contains(LowerName(s), w)
    ensures Contains(TailText(s, leg), w)
  {
    var n, t := LowerName(s), LegType(leg);
    ContainsLeft(" ", n, w);
    ContainsRight(" " + n, " (", w);
    ContainsRight(" " + n + " (", t, w);
    ContainsRight(" " + n + " (" + t, ")", w);
  }

  /** The tail of a leg's name lacks the word of every stroke but its own. */
  lemma TailLacksWord(s: Stroke, leg: nat, w: string)
    requires |w| >= 2 && IsLetter(w[0]) && IsLetter(w[1])
    requires LacksPair(LowerName(s), w[0], w[1]) && LacksPair(LegType(leg), w[0], w[1])
    ensures !Contains(TailText(s, leg), w)
  {
    hide LowerName, LegType, TailText;
    TailLacks(s, leg, w[0], w[1]);
    LacksPairNotContains(TailText(s, leg), w, 0);
  }

  lemma FreestylePairs()
    ensures LacksPair("freestyle", 'b', 'a') && LacksPair("freestyle", 'b', 'r') && LacksPair("freestyle", 'f', 'l') && LacksPair("freestyle", 'b', 'u')
  {
  }

  lemma FreestyleTail(leg: nat)
    ensures Contains(TailText(Freestyle, leg), "free")
    ensures !Contains(TailText(Freestyle, leg), "back") && !Contains(TailText(Freestyle, leg), "breast") && !Contains(TailText(Freestyle, leg), "fly") && !Contains(TailText(Freestyle, leg), "butter")
  {
    hide TailText, LegType, LacksPair, Contains;
    LegTypePairs(leg);
    FreestylePairs();
    ContainsAt("freestyle", "free", 0);
    TailHas(Freestyle, leg, "free");
    TailLacksWord(Freestyle, leg, "back");
    TailLacksWord(Freestyle, leg, "breast");
    TailLacksWord(Freestyle, leg, "fly");
    TailLacksWord(Freestyle, leg, "butter");
  }

  lemma BackstrokePairs()
    ensures LacksPair("backstroke", 'f', 'r') && LacksPair("backstroke", 'b', 'r') && LacksPair("backstroke", 'f', 'l') && LacksPair("backstroke", 'b', 'u')
  {
  }

  lemma BackstrokeTail(leg: nat)
    ensures Contains(TailText(Backstroke, leg), "back")
    ensures !Contains(TailText(Backstroke, leg), "free") && !Contains(TailText(Backstroke, leg), "breast") && !Contains(TailText(Backstroke, leg), "fly") && !Contains(TailText(Backstroke, leg), "butter")
  {
    hide TailText, LegType, LacksPair, Contains;
    LegTypePairs(leg);
    BackstrokePairs();
    ContainsAt("backstroke", "back", 0);
    TailHas(Backstroke, leg, "back");
    TailLacksWord(Backstroke, leg, "free");
    TailLacksWord(Backstroke, leg, "breast");
    TailLacksWord(Backstroke, leg, "fly");
    TailLacksWord(Backstroke, leg, "butter");
  }

  lemma BreaststrokePairs()
    ensures LacksPair("breaststroke", 'f', 'r') && LacksPair("breaststroke", 'b', 'a') && LacksPair("breaststroke", 'f', 'l') && LacksPair("breaststroke", 'b', 'u')
  {
  }

  lemma BreaststrokeTail(leg: nat)
    ensures Contains(TailText(Breaststroke, leg), "breast")
    ensures !Contains(TailText(Breaststroke, leg), "free") && !Contains(TailText(Breaststroke, leg), "back") && !Contains(TailText(Breaststroke, leg), "fly") && !Contains(TailText(Breaststroke, leg), "butter")
  {
    hide TailText, LegType, LacksPair, Contains;
    LegTypePairs(leg);
    BreaststrokePairs();
    ContainsAt("breaststroke", "breast", 0);
    TailHas(Breaststroke, leg, "breast");
    TailLacksWord(Breaststroke, leg, "free");
    TailLacksWord(Breaststroke, leg, "back");
    TailLacksWord(Breaststroke, leg, "fly");
    TailLacksWord(Breaststroke, leg, "butter");
  }

  lemma ButterflyPairs()
    ensures LacksPair("butterfly", 'f', 'r') && LacksPair("butterfly", 'b', 'a') && LacksPair("butterfly", 'b', 'r')
  {
  }

  lemma ButterflyTail(leg: nat)
    ensures Contains(TailText(Butterfly, leg), "butter")
    ensures !Contains(TailText(Butterfly, leg), "free") && !Contains(TailText(Butterfly, leg), "back") && !Contains(TailText(Butterfly, leg), "breast")
  {
    hide TailText, LegType, LacksPair, Contains;
    LegTypePairs(leg);
    ButterflyPairs();
    ContainsAt("butterfly", "butter", 0);
    TailHas(Butterfly, leg, "butter");
    TailLacksWord(Butterfly, leg, "free");
    TailLacksWord(Butterfly, leg, "back");
    TailLacksWord(Butterfly, leg, "breast");
  }

  /** Each lower-cased tail mentions its own stroke and no other. */
  lemma TailTextMentions(s: Stroke, leg: nat)
    ensures forall t :: Mentions(TailText(s, leg), t) <==> t == s
  {
    hide TailText, Contains;
    match s {
      case Freestyle => FreestyleTail(leg);
      case Backstroke => BackstrokeTail(leg);
      case Breaststroke => BreaststrokeTail(leg);
      case Butterfly => ButterflyTail(leg);
    }
  }

  /** Digits in front change no mention of a stroke. */
  lemma MentionsAfterDigits(a: string, b: string)
    requires AllDigits(a)
    ensures forall t :: Mentions(a + b, t) <==> Mentions(b, t)
  {
    hide Contains;
    ContainsAfterDigits(a, b, "free");
    ContainsAfterDigits(a, b, "back");
    ContainsAfterDigits(a, b, "breast");
    ContainsAfterDigits(a, b, "fly");
    ContainsAfterDigits(a, b, "butter");
  }

  /** `extract_stroke` reads back the stroke of every leg `save_relay_legs` writes. */
  lemma ExtractStrokeOfLeg(d: nat, s: Stroke, leg: nat)
    ensures ExtractStroke(LegEvent(d, s, leg)) == Some(s)
  {
    hide ExtractStroke, Mentions, Lower, LegEvent, LegTail, TailText, NatToString;
    LowerLegEvent(d, s, leg);
    LowerTail(s, leg);
    MentionsAfterDigits(NatToString(d), TailText(s, leg));
    TailTextMentions(s, leg);
    var r := ExtractStroke(LegEvent(d, s, leg));
    assert Mentions(Lower(LegEvent(d, s, leg)), s);
  }

  // -------------------------------------------------------------------------
  // Normalisation and patterns
  // -------------------------------------------------------------------------

  lemma SuffixTexts()
    ensures Lower("(relay)") == "(relay)" && Lower("(lead-off)") == "(lead-off)"
    ensures Lower("ad-off)") == "ad-off)"
  {
    hide Lower;
    LowerIs("(relay)", "(relay)");
    LowerIs("(lead-off)", "(lead-off)");
    LowerIs("ad-off)", "ad-off)");
  }

  lemma StripRelaySuffix(base: string)
    requires base != "" && !IsSpace(base[0]) && !IsSpace(base[|base| - 1])
    ensures StripEventSuffixes(base + " (relay)") == base
  {
    hide Lower, Strip, RStrip;
    var e := base + " (relay)";
    SuffixTexts();
    assert RStrip(e) == e;
    assert EndsWithCI(e, "(relay)") by {
      assert e[|e| - 7..] == "(relay)";
    }
    assert e[..|e| - 7] == base + " ";
    StripBlankEnd(base);
  }

  lemma StripLeadOffSuffix(base: string)
    requires base != "" && !IsSpace(base[0]) && !IsSpace(base[|base| - 1])
    ensures StripEventSuffixes(base + " (lead-off)") == base
  {
    hide Lower, Strip, RStrip;
    var e := base + " (lead-off)";
    SuffixTexts();
    assert RStrip(e) == e;
    assert !EndsWithCI(e, "(relay)") by {
      assert e[|e| - 7..] == "ad-off)";
    }
    assert EndsWithCI(e, "(lead-off)") by {
      assert e[|e| - 10..] == "(lead-off)";
    }
    assert e[..|e| - 10] == base + " ";
    StripBlankEnd(base);
  }

  /** A relay or lead-off suffix after a stripped name is removed, leaving the name. */
  lemma StripSuffixOf(base: string, leg: nat)
    requires base != "" && !IsSpace(base[0]) && !IsSpace(base[|base| - 1])
    ensures StripEventSuffixes(base + " (" + LegType(leg) + ")") == base
  {
    hide StripEventSuffixes;
    if leg == 1 {
      assert base + " (" + LegType(leg) + ")" == base + " (lead-off)";
      StripLeadOffSuffix(base);
    } else {
      assert base + " (" + LegType(leg) + ")" == base + " (relay)";
      StripRelaySuffix(base);
    }
  }

  /** A stripped name without either suffix is left as it is. */
  lemma StripSuffixPlain(e: string)
    requires e != "" && !IsSpace(e[0]) && !IsSpace(e[|e| - 1])
    requires !EndsWithCI(e, "(relay)") && !EndsWithCI(e, "(lead-off)")
    ensures StripEventSuffixes(e) == e
  {
    StripKeeps(e);
  }

  /** The gender prefix goes before the suffix is looked for. */
  lemma NormalizeGendered(x: string)
    ensures NormalizeEventForFilter("Women " + x) == StripEventSuffixes(x)
    ensures NormalizeEventForFilter("Men " + x) == StripEventSuffixes(x)
  {
    hide StripEventSuffixes;
    assert ("Women " + x)[..6] == "Women ";
    assert ("Women " + x)[6..] == x;
    assert ("Men " + x)[..4] == "Men ";
    assert ("Men " + x)[4..] == x;
    assert ("Men " + x)[0] != "Women "[0];
  }

  /** A saved leg filters under its plain event name, "<distance> <stroke>". */
  lemma NormalizeLegEvent(d: nat, s: Stroke, leg: nat)
    ensures NormalizeEventForFilter(LegEvent(d, s, leg)) == NatToString(d) + " " + StrokeName(s)
  {
    hide StripEventSuffixes, NatToString, StrokeName, LegType;
    var e := LegEvent(d, s, leg);
    var base := NatToString(d) + " " + StrokeName(s);
    assert e == base + " (" + LegType(leg) + ")";
    assert IsDigit(e[0]) by { assert e[0] == NatToString(d)[0]; }
    assert StripGenderPrefix(e) == e;
    StrokeNameEnd(s);
    assert base[|base| - 1] == StrokeName(s)[|StrokeName(s)| - 1];
    StripSuffixOf(base, leg);
  }

  lemma StrokeNameEnd(s: Stroke)
    ensures StrokeName(s) != "" && !IsSpace(StrokeName(s)[|StrokeName(s)| - 1])
  {
  }

  lemma PatternWords()
    ensures Lower("Free") == "free" && Lower("Back") == "back" && Lower("Breast") == "breast"
    ensures Lower("Fly") == "fly"
  {
    hide Lower;
    LowerIs("Free", "free");
    LowerIs("Back", "back");
    LowerIs("Breast", "breast");
    LowerIs("Fly", "fly");
  }

  /**
   * The LIKE pattern for a stroke finds every event `extract_stroke` reads as
   * freestyle, backstroke or breaststroke.
   */
  lemma PatternFindsStroke(e: string, s: Stroke)
    requires s != Butterfly && ExtractStroke(e) == Some(s)
    ensures LikeAnywhere(StrokePattern(StrokeName(s)), e)
  {
    hide Lower, Contains, ExtractStroke;
    PatternWords();
    match s {
      case Freestyle => assert StrokePattern("Freestyle")[1..5] == "Free";
      case Backstroke => assert StrokePattern("Backstroke")[1..5] == "Back";
      case Breaststroke => assert StrokePattern("Breaststroke")[1..7] == "Breast";
    }
  }

  lemma PatternFindsFlyLeg(d: nat, leg: nat)
    ensures LikeAnywhere(StrokePattern(StrokeName(Butterfly)), LegEvent(d, Butterfly, leg))
  {
    hide Lower, Contains, LegEvent, LegTail, TailText, NatToString;
    PatternWords();
    assert StrokePattern("Butterfly")[1..4] == "Fly";
    LowerLegEvent(d, Butterfly, leg);
    LowerTail(Butterfly, leg);
    ContainsAt("butterfly", "fly", 6);
    TailHas(Butterfly, leg, "fly");
    ContainsLeft(NatToString(d), TailText(Butterfly, leg), "fly");
  }

  /** The LIKE pattern for a stroke finds every leg of that stroke `save_relay_legs` writes. */
  lemma PatternFindsLeg(d: nat, s: Stroke, leg: nat)
    ensures LikeAnywhere(StrokePattern(StrokeName(s)), LegEvent(d, s, leg))
  {
    hide LikeAnywhere, StrokePattern, LegEvent, StrokeName;
    if s == Butterfly {
      PatternFindsFlyLeg(d, leg);
    } else {
      ExtractStrokeOfLeg(d, s, leg);
      PatternFindsStroke(LegEvent(d, s, leg), s);
    }
  }

  // -------------------------------------------------------------------------
  // The suffix words of a saved leg
  // -------------------------------------------------------------------------

  predicate NoParen(s: string) {
    forall i :: 0 <= i < |s| ==> s[i] != '('
  }

  lemma NamesNoParen(s: Stroke, leg: nat)
    ensures NoParen(LowerName(s)) && NoParen(LegType(leg))
  {
  }

  /** The one opening parenthesis of a leg's tail is the one before its leg type. */
  lemma TailParen(s: Stroke, leg: nat, c: char)
    requires c != LegType(leg)[0]
    ensures LacksPair(TailText(s, leg), '(', c)
  {
    var n, t := LowerName(s), LegType(leg);
    NamesNoParen(s, leg);
    assert t != "";
    hide LowerName, LegType;
    var tail := TailText(s, leg);
    assert tail == " " + n + " (" + t + ")";
    forall k | 0 <= k < |tail| - 1 ensures !(tail[k] == '(' && tail[k + 1] == c) {
      if k == |n| + 2 {
        assert tail[k + 1] == t[0];
      } else if k == 0 || k == |n| + 1 {
        assert tail[k] == ' ';
      } else if k <= |n| {
        assert tail[k] == n[k - 1];
      } else {
        assert tail[k] == t[k - |n| - 3];
      }
    }
  }

  lemma TailHasLegType(s: Stroke, leg: nat)
    ensures Contains(TailText(s, leg), "(" + LegType(leg) + ")")
  {
    var n, t := LowerName(s), LegType(leg);
    hide LowerName, LegType;
    var tail := TailText(s, leg);
    assert tail[|n| + 2..|n| + 2 + |t| + 2] == "(" + t + ")";
    ContainsAt(tail, "(" + t + ")", |n| + 2);
  }

  /** A saved leg's name carries "(lead-off)" exactly for leg 1 and "(relay)" exactly for the others. */
  lemma LegSuffixWords(d: nat, s: Stroke, leg: nat)
    ensures Contains(Lower(LegEvent(d, s, leg)), "(lead-off)") <==> leg == 1
    ensures Contains(Lower(LegEvent(d, s, leg)), "(relay)") <==> leg != 1
  {
    hide Lower, Contains, LegEvent, LegTail, TailText, LacksPair, NatToString;
    LowerLegEvent(d, s, leg);
    LowerTail(s, leg);
    ContainsAfterDigits(NatToString(d), TailText(s, leg), "(lead-off)");
    ContainsAfterDigits(NatToString(d), TailText(s, leg), "(relay)");
    TailHasLegType(s, leg);
    if leg == 1 {
      assert "(" + LegType(leg) + ")" == "(lead-off)";
      TailParen(s, leg, 'r');
      LacksPairNotContains(TailText(s, leg), "(relay)", 0);
    } else {
      assert "(" + LegType(leg) + ")" == "(relay)";
      TailParen(s, leg, 'l');
      LacksPairNotContains(TailText(s, leg), "(lead-off)", 0);
    }
  }
}
