// The relay helpers of the desktop front end: cutting a relay's splits into
// leg times, indexing every swimmer's times by (distance, stroke), and the
// greedy lineup that fills each leg with the fastest swimmer still free.
// Times are integer hundredths of a second.

module Relays {
  import opened Wrappers
  import opened Text
  import opened EventNames
  import opened Times
  import Results

  // -------------------------------------------------------------------------
  // Leg times from splits
  // -------------------------------------------------------------------------

  function Sum(s: seq<int>): int {
    if s == [] then 0 else Sum(s[..|s| - 1]) + s[|s| - 1]
  }

  lemma {:induction false} SumAppend(a: seq<int>, b: seq<int>)
    ensures Sum(a + b) == Sum(a) + Sum(b)
    decreases |b|
  {
    if b == [] {
      assert a + b == a;
    } else {
      var b' := b[..|b| - 1];
      assert (a + b)[..|a + b| - 1] == a + b';
      SumAppend(a, b');
    }
  }

  /** The leg that starts at split `start` and spans `k` splits: what is there of it. */
  function LegTime(splits: seq<int>, start: nat, k: nat): (r: Option<int>)
    ensures r.None? <==> start >= |splits| && (k > 0 || start > |splits|)
  {
    if start + k <= |splits| then Some(Sum(splits[start..start + k]))
    else if start < |splits| then Some(Sum(splits[start..]))
    else None
  }

  /** Splits per leg: the leg distance in 50-yard lengths. */
  function SplitsPerLeg(n: nat, distance: nat): nat
    requires n > 0
  {
    (distance / n) / 50
  }

  /**
   * What `calculate_leg_times` returns: nothing without splits or swimmers, the
   * splits themselves when there is one per swimmer, else one entry per swimmer
   * summing that swimmer's run of splits.
   */
  function LegTimes(splits: seq<int>, n: nat, distance: nat): (r: seq<Option<int>>)
    ensures splits == [] || n == 0 ==> r == []
    ensures splits != [] && n > 0 ==> |r| == n
    ensures |splits| == n ==> forall i :: 0 <= i < n ==> r[i] == Some(splits[i])
  {
    if splits == [] || n == 0 then []
    else if |splits| == n then seq(n, i requires 0 <= i < n => Some(splits[i]))
    else
      var k := SplitsPerLeg(n, distance);
      seq(n, i requires 0 <= i < n => LegTime(splits, i * k, k))
  }

  /**
   * `calculate_leg_times` (and its copy `calculate_relay_leg_times`): the loop
   * over swimmers appending each leg's sum, a partial sum, or none.
   */
  method CalculateLegTimes(splits: seq<int>, numSwimmers: nat, eventDistance: nat)
    returns (legTimes: seq<Option<int>>)
    ensures legTimes == LegTimes(splits, numSwimmers, eventDistance)
  {
    if splits == [] || numSwimmers == 0 {
      return [];
    }
    var legDistance := eventDistance / numSwimmers;
    var splitsPerLeg := legDistance / 50;
    if |splits| == numSwimmers {
      return seq(numSwimmers, i requires 0 <= i < numSwimmers => Some(splits[i]));
    }
    legTimes := [];
    for i := 0 to numSwimmers
      invariant |legTimes| == i
      invariant forall j :: 0 <= j < i ==> legTimes[j] == LegTime(splits, j * splitsPerLeg, splitsPerLeg)
    {
      var startIdx := i * splitsPerLeg;
      var endIdx := startIdx + splitsPerLeg;
      if endIdx <= |splits| {
        legTimes := legTimes + [Some(Sum(splits[startIdx..endIdx]))];
      } else if startIdx < |splits| {
        legTimes := legTimes + [Some(Sum(splits[startIdx..]))];
      } else {
        legTimes := legTimes + [None];
      }
    }
  }

  /** The sum of the leg times that are there. */
  function TotalOf(legs: seq<Option<int>>): int {
    if legs == [] then 0
    else TotalOf(legs[..|legs| - 1]) + (match legs[|legs| - 1] case Some(t) => t case None => 0)
  }

  function Min(a: nat, b: nat): nat {
    if a <= b then a else b
  }

  /** The first `i` legs when each spans `k` splits. */
  function LegRun(splits: seq<int>, k: nat, i: nat): (r: seq<Option<int>>)
    ensures |r| == i
  {
    seq(i, j requires 0 <= j < i => LegTime(splits, j * k, k))
  }

  lemma LegRunSnoc(splits: seq<int>, k: nat, i: nat)
    requires i > 0
    ensures TotalOf(LegRun(splits, k, i)) == TotalOf(LegRun(splits, k, i - 1))
              + (match LegTime(splits, (i - 1) * k, k) case Some(t) => t case None => 0)
  {
    assert LegRun(splits, k, i)[..i - 1] == LegRun(splits, k, i - 1);
  }

  /** The part of leg `start..start + k` that exists adds up to the splits from `start` to the cut-off. */
  lemma LegTimeSpan(splits: seq<int>, start: nat, k: nat)
    ensures (match LegTime(splits, start, k) case Some(t) => t case None => 0)
         == Sum(splits[Min(start, |splits|)..Min(start + k, |splits|)])
  {
    if start + k <= |splits| {
    } else if start < |splits| {
      assert splits[start..] == splits[start..|splits|];
    } else {
      assert splits[Min(start, |splits|)..Min(start + k, |splits|)] == [];
    }
  }

  /** The first `i` legs of `k` splits each cover exactly the first `i * k` splits that exist. */
  lemma {:induction false} LegsCover(splits: seq<int>, k: nat, i: nat)
    ensures TotalOf(LegRun(splits, k, i)) == Sum(splits[..Min(i * k, |splits|)])
  {
    if i > 0 {
      hide *;
      var start := (i - 1) * k;
      MulStep(i, k);
      LegsCover(splits, k, i - 1);
      LegRunSnoc(splits, k, i);
      LegTimeSpan(splits, start, k);
      MinMono(start, start + k, |splits|);
      PrefixSum(splits, Min(start, |splits|), Min(start + k, |splits|));
    }
  }

  lemma MinMono(a: nat, b: nat, n: nat)
    requires a <= b
    ensures Min(a, n) <= Min(b, n) <= n
  {
  }

  lemma PrefixSum(s: seq<int>, a: nat, b: nat)
    requires a <= b <= |s|
    ensures Sum(s[..b]) == Sum(s[..a]) + Sum(s[a..b])
  {
    assert s[..b] == s[..a] + s[a..b];
    SumAppend(s[..a], s[a..b]);
  }

  lemma MulStep(i: nat, k: nat)
    requires i > 0
    ensures i * k == (i - 1) * k + k
  {
  }

  /**
   * Summing the legs loses no split that falls inside some leg and counts none
   * twice: the total is the sum of the first `n * k` splits (all of them when the
   * splits do not run past the last leg), or of all splits when they are already
   * one per swimmer.
   */
  lemma LegTimesTotal(splits: seq<int>, n: nat, distance: nat)
    requires splits != [] && n > 0
    ensures |splits| == n ==> TotalOf(LegTimes(splits, n, distance)) == Sum(splits)
    ensures |splits| != n ==>
      TotalOf(LegTimes(splits, n, distance)) == Sum(splits[..Min(n * SplitsPerLeg(n, distance), |splits|)])
  {
    if |splits| == n {
      var r := LegTimes(splits, n, distance);
      forall i | 0 <= i <= n ensures TotalOf(r[..i]) == Sum(splits[..i]) {
        PerLegPrefix(splits, r, i);
      }
      assert r[..n] == r && splits[..n] == splits;
    } else {
      LegsCover(splits, SplitsPerLeg(n, distance), n);
      assert LegTimes(splits, n, distance) == LegRun(splits, SplitsPerLeg(n, distance), n);
    }
  }

  lemma {:induction false} PerLegPrefix(splits: seq<int>, r: seq<Option<int>>, i: nat)
    requires |r| == |splits| && i <= |r|
    requires forall j :: 0 <= j < |r| ==> r[j] == Some(splits[j])
    ensures TotalOf(r[..i]) == Sum(splits[..i])
  {
    if i > 0 {
      PerLegPrefix(splits, r, i - 1);
      assert r[..i][..i - 1] == r[..i - 1];
      assert splits[..i][..i - 1] == splits[..i - 1];
    }
  }

  /** A missing leg is never followed by one that is there. */
  lemma LegTimesMissingTrail(splits: seq<int>, n: nat, distance: nat, i: nat, j: nat)
    requires i < j < |LegTimes(splits, n, distance)|
    requires LegTimes(splits, n, distance)[i].None?
    ensures LegTimes(splits, n, distance)[j].None?
  {
    var k := SplitsPerLeg(n, distance);
    assert i * k <= j * k by {
      assert j * k == i * k + (j - i) * k;
    }
  }

  // -------------------------------------------------------------------------
  // Swimmer times by (distance, stroke)
  // -------------------------------------------------------------------------

  /** The columns of a saved result that the relay builder reads; a missing value is `None`. */
  datatype Row = Row(eventName: Option<string>, distance: Option<nat>, seconds: Option<int>, name: Option<string>)

  /** Where a time comes from: a relay lead-off, a later relay leg, or an individual swim. */
  datatype Source = LeadOff | RelaySplit | Individual

  /** One time of a swimmer, and whether it may be used for a lead-off leg. */
  datatype Entry = Entry(time: int, eligible: bool, source: Source)

  type Key = (nat, Stroke)

  /**
   * The swimmer-times dictionary: the names in the order they were first added,
   * and for each name the times grouped by (distance, stroke) in result order.
   */
  datatype SwimmerTimes = SwimmerTimes(order: seq<string>, table: map<string, map<Key, seq<Entry>>>)

  predicate IsLeadOffName(eventName: string) {
    Contains(Lower(eventName), "(lead-off)")
  }

  predicate IsRelaySplitName(eventName: string) {
    Contains(Lower(eventName), "(relay)") || IsLeadOffName(eventName)
  }

  /** The source recorded for a time, read off the event name. */
  function SourceOf(eventName: string): (src: Source)
    ensures src == Individual <==> !IsRelaySplitName(eventName)
    ensures src == LeadOff <==> IsLeadOffName(eventName)
  {
    if IsLeadOffName(eventName) then LeadOff
    else if IsRelaySplitName(eventName) then RelaySplit
    else Individual
  }

  /**
   * What one result contributes to the dictionary: nothing without a name, a
   * positive time and a stroke; else the swimmer, the key and the entry. A time
   * is lead-off eligible exactly when it is not a relay leg after the first.
   */
  function TimeOf(r: Row): (c: Option<(string, Key, Entry)>)
    ensures c.Some? <==> r.name.GetOr("") != "" && r.seconds.GetOr(0) > 0
                         && ExtractStroke(r.eventName.GetOr("")).Some?
    ensures c.Some? ==> c.value.0 == r.name.value && c.value.2.time == r.seconds.value
    ensures c.Some? ==> c.value.1 == (r.distance.GetOr(0), ExtractStroke(r.eventName.value).value)
    ensures c.Some? ==> (c.value.2.eligible <==> c.value.2.source != RelaySplit)
    ensures c.Some? ==> c.value.2.source == SourceOf(r.eventName.value)
    ensures c.Some? ==> (c.value.2.eligible <==>
                           !IsRelaySplitName(r.eventName.value) || IsLeadOffName(r.eventName.value))
  {
    var eventName := r.eventName.GetOr("");
    var distance := r.distance.GetOr(0);
    var name := r.name.GetOr("");
    var stroke := ExtractStroke(eventName);
    if name == "" || r.seconds.None? || r.seconds.value <= 0 || stroke.None? then None
    else
      var isRelaySplit := IsRelaySplitName(eventName);
      var isLeadOff := IsLeadOffName(eventName);
      Some((name, (distance, stroke.value), Entry(r.seconds.value, !isRelaySplit || isLeadOff, SourceOf(eventName))))
  }

  /** Append an entry under a name and key, adding the name to the order when it is new. */
  function Record(st: SwimmerTimes, name: string, key: Key, e: Entry): SwimmerTimes {
    var inner := if name in st.table then st.table[name] else map[];
    var entries := if key in inner then inner[key] else [];
    SwimmerTimes(if name in st.table then st.order else st.order + [name],
                 st.table[name := inner[key := entries + [e]]])
  }

  function AddRow(st: SwimmerTimes, r: Row): SwimmerTimes {
    match TimeOf(r)
    case None => st
    case Some((name, key, e)) => Record(st, name, key, e)
  }

  /** `parse_swimmer_times` as a fold over the results. */
  function SwimmerTimesOf(rows: seq<Row>): SwimmerTimes {
    if rows == [] then SwimmerTimes([], map[])
    else AddRow(SwimmerTimesOf(rows[..|rows| - 1]), rows[|rows| - 1])
  }

  /** `parse_swimmer_times`: one pass over the results filling the nested dictionary. */
  method ParseSwimmerTimes(results: seq<Row>) returns (st: SwimmerTimes)
    ensures st == SwimmerTimesOf(results)
  {
    var order: seq<string> := [];
    var table: map<string, map<Key, seq<Entry>>> := map[];
    for i := 0 to |results|
      invariant SwimmerTimes(order, table) == SwimmerTimesOf(results[..i])
    {
      assert results[..i + 1][..i] == results[..i];
      ghost var before := SwimmerTimes(order, table);
      var r := results[i];
      var eventName := r.eventName.GetOr("");
      var distance := r.distance.GetOr(0);
      var name := r.name.GetOr("");
      if name == "" || r.seconds.None? || r.seconds.value <= 0 {
        assert TimeOf(r).None?;
        continue;
      }
      var stroke := ExtractStroke(eventName);
      if stroke.None? {
        assert TimeOf(r).None?;
        continue;
      }
      var isRelaySplit := IsRelaySplitName(eventName);
      var isLeadOff := IsLeadOffName(eventName);
      var eligible := !isRelaySplit || isLeadOff;
      var source := if isLeadOff then LeadOff else if isRelaySplit then RelaySplit else Individual;
      var key := (distance, stroke.value);
      var e := Entry(r.seconds.value, eligible, source);
      assert TimeOf(r) == Some((name, key, e));
      var inner: map<Key, seq<Entry>> := map[];
      if name in table {
        inner := table[name];
      } else {
        order := order + [name];
      }
      var entries: seq<Entry> := [];
      if key in inner {
        entries := inner[key];
      }
      table := table[name := inner[key := entries + [e]]];
      assert SwimmerTimes(order, table) == Record(before, name, key, e);
    }
    assert results[..|results|] == results;
    return SwimmerTimes(order, table);
  }

  /** The entries the results give one swimmer under one key, in result order. */
  function EntriesOf(rows: seq<Row>, name: string, key: Key): seq<Entry> {
    if rows == [] then []
    else EntriesOf(rows[..|rows| - 1], name, key)
         + match TimeOf(rows[|rows| - 1])
           case Some((n, k, e)) => if n == name && k == key then [e] else []
           case None => []
  }

  /** The order lists each swimmer once, exactly the swimmers in the table, none without times. */
  ghost predicate Tracked(st: SwimmerTimes) {
    (forall i, j :: 0 <= i < j < |st.order| ==> st.order[i] != st.order[j])
    && (forall n :: n in st.table <==> n in st.order)
    && (forall n :: n in st.table ==> st.table[n] != map[])
  }

  lemma {:induction false} SwimmerTimesTracked(rows: seq<Row>)
    ensures Tracked(SwimmerTimesOf(rows))
  {
    if rows != [] {
      SwimmerTimesTracked(rows[..|rows| - 1]);
    }
  }

  /**
   * Every swimmer's times under a key are exactly that swimmer's usable results
   * for the key, in result order; a key is present only when there is one.
   */
  lemma {:induction false} SwimmerTimesGroups(rows: seq<Row>, name: string, key: Key)
    ensures var st := SwimmerTimesOf(rows);
      (name in st.table && key in st.table[name]) <==> EntriesOf(rows, name, key) != []
    ensures var st := SwimmerTimesOf(rows);
      name in st.table && key in st.table[name] ==> st.table[name][key] == EntriesOf(rows, name, key)
  {
    if rows != [] {
      SwimmerTimesGroups(rows[..|rows| - 1], name, key);
    }
  }

  // -------------------------------------------------------------------------
  // Relay legs saved as results
  // -------------------------------------------------------------------------

  /** A relay swimmer as the parser lists them: name, year and leg number. */
  datatype RelaySwimmer = RelaySwimmer(name: string, year: string, leg: nat)

  /** The values `save_relay_legs` inserts for one leg (the columns taken from the relay row aside). */
  datatype SavedLeg = SavedLeg(name: string, year: string, eventName: string, distance: nat,
                               finalsTime: string, seconds: int)

  function LegRow(eventName: string, legDistance: nat, sw: RelaySwimmer, i: nat, t: int): SavedLeg {
    SavedLeg(sw.name, sw.year, LegEvent(legDistance, LegStroke(eventName, i), sw.leg), legDistance,
             FormatTime(Some(t)), t)
  }

  /** The rows for the first `i` swimmers: one for each whose leg time is there. */
  function SavedUpTo(eventName: string, legDistance: nat, swimmers: seq<RelaySwimmer>,
                     legTimes: seq<Option<int>>, i: nat): (r: seq<SavedLeg>)
    requires i <= |swimmers|
    ensures |r| <= i
  {
    if i == 0 then []
    else SavedUpTo(eventName, legDistance, swimmers, legTimes, i - 1)
         + (if i - 1 < |legTimes| && legTimes[i - 1].Some?
            then [LegRow(eventName, legDistance, swimmers[i - 1], i - 1, legTimes[i - 1].value)]
            else [])
  }

  /** What `save_relay_legs` writes for a relay result: nothing without swimmers or splits. */
  function SavedLegs(eventName: string, eventDistance: nat, swimmers: seq<RelaySwimmer>, splits: seq<int>): (r: seq<SavedLeg>)
    ensures |r| <= |swimmers|
    ensures swimmers == [] || splits == [] ==> r == []
  {
    if swimmers == [] || splits == [] then []
    else
      var n := |swimmers|;
      SavedUpTo(eventName, eventDistance / n, swimmers, LegTimes(splits, n, eventDistance), n)
  }

  /**
   * `save_relay_legs`: the rows inserted, one per swimmer whose leg time is
   * there; the count it returns is their number.
   */
  method SaveRelayLegs(eventName: Option<string>, eventDistance: nat, swimmers: seq<RelaySwimmer>, splits: seq<int>)
    returns (rows: seq<SavedLeg>)
    ensures rows == SavedLegs(eventName.GetOr(""), eventDistance, swimmers, splits)
  {
    hide *;
    if swimmers == [] || splits == [] {
      return [];
    }
    var legTimes := CalculateLegTimes(splits, |swimmers|, eventDistance);
    var strokes: seq<Stroke>;
    if Contains(eventName.GetOr(""), "Medley") {
      strokes := [Backstroke, Breaststroke, Butterfly, Freestyle];
    } else {
      strokes := [Freestyle, Freestyle, Freestyle, Freestyle];
    }
    LegStrokesAre(eventName.GetOr(""), strokes);
    var legDistance := eventDistance / |swimmers|;
    rows := [];
    for i := 0 to |swimmers|
      invariant rows == SavedUpTo(eventName.GetOr(""), legDistance, swimmers, legTimes, i)
    {
      SavedUpToStep(eventName.GetOr(""), legDistance, swimmers, legTimes, i);
      if i >= |legTimes| || legTimes[i].None? {
        continue;
      }
      var sw := swimmers[i];
      var legTime := legTimes[i].value;
      var legStroke := if i < |strokes| then strokes[i] else Freestyle;
      var legType := if sw.leg == 1 then "lead-off" else "relay";
      var legEvent := NatToString(legDistance) + " " + StrokeName(legStroke) + " (" + legType + ")";
      var timeStr := FormatTime(Some(legTime));
      LegRowIs(eventName.GetOr(""), legDistance, sw, i, legTime, strokes);
      rows := rows + [SavedLeg(sw.name, sw.year, legEvent, legDistance, timeStr, legTime)];
    }
    SavedLegsIs(eventName.GetOr(""), eventDistance, swimmers, splits);
  }

  lemma LegStrokesAre(eventName: string, strokes: seq<Stroke>)
    requires Contains(eventName, "Medley") ==> strokes == [Backstroke, Breaststroke, Butterfly, Freestyle]
    requires !Contains(eventName, "Medley") ==> strokes == [Freestyle, Freestyle, Freestyle, Freestyle]
    ensures LegStrokes(eventName) == strokes
  {
    hide Contains;
  }

  lemma SavedUpToStep(eventName: string, legDistance: nat, swimmers: seq<RelaySwimmer>,
                      legTimes: seq<Option<int>>, i: nat)
    requires i < |swimmers|
    ensures SavedUpTo(eventName, legDistance, swimmers, legTimes, i + 1)
         == SavedUpTo(eventName, legDistance, swimmers, legTimes, i)
            + (if i < |legTimes| && legTimes[i].Some?
               then [LegRow(eventName, legDistance, swimmers[i], i, legTimes[i].value)]
               else [])
  {
    hide LegRow;
  }

  lemma LegRowIs(eventName: string, legDistance: nat, sw: RelaySwimmer, i: nat, t: int, strokes: seq<Stroke>)
    requires LegStrokes(eventName) == strokes
    ensures LegRow(eventName, legDistance, sw, i, t)
         == SavedLeg(sw.name, sw.year,
                     NatToString(legDistance) + " " + StrokeName(if i < |strokes| then strokes[i] else Freestyle)
                       + " (" + (if sw.leg == 1 then "lead-off" else "relay") + ")",
                     legDistance, FormatTime(Some(t)), t)
  {
    hide *;
    LegStrokeIs(eventName, i, strokes);
    LegEventIs(legDistance, if i < |strokes| then strokes[i] else Freestyle, sw.leg);
    LegRowFields(eventName, legDistance, sw, i, t);
  }

  lemma LegStrokeIs(eventName: string, i: nat, strokes: seq<Stroke>)
    requires LegStrokes(eventName) == strokes
    ensures LegStroke(eventName, i) == if i < |strokes| then strokes[i] else Freestyle
  {
    hide LegStrokes;
  }

  lemma LegEventIs(d: nat, s: Stroke, leg: nat)
    ensures LegEvent(d, s, leg) == NatToString(d) + " " + StrokeName(s) + " (" + (if leg == 1 then "lead-off" else "relay") + ")"
  {
    hide NatToString, StrokeName;
  }

  lemma LegRowFields(eventName: string, legDistance: nat, sw: RelaySwimmer, i: nat, t: int)
    ensures LegRow(eventName, legDistance, sw, i, t)
         == SavedLeg(sw.name, sw.year, LegEvent(legDistance, LegStroke(eventName, i), sw.leg),
                     legDistance, FormatTime(Some(t)), t)
  {
    hide LegEvent, LegStroke, FormatTime;
  }

  lemma SavedLegsIs(eventName: string, eventDistance: nat, swimmers: seq<RelaySwimmer>, splits: seq<int>)
    requires swimmers != [] && splits != []
    ensures SavedLegs(eventName, eventDistance, swimmers, splits)
         == SavedUpTo(eventName, eventDistance / |swimmers|, swimmers,
                      LegTimes(splits, |swimmers|, eventDistance), |swimmers|)
  {
    hide SavedUpTo, LegTimes;
  }

  function SecondsOf(rows: seq<SavedLeg>): int {
    if rows == [] then 0 else SecondsOf(rows[..|rows| - 1]) + rows[|rows| - 1].seconds
  }

  lemma {:induction false} SavedUpToTotal(eventName: string, legDistance: nat, swimmers: seq<RelaySwimmer>,
                                          legTimes: seq<Option<int>>, i: nat)
    requires i <= |swimmers| && |legTimes| == |swimmers|
    ensures SecondsOf(SavedUpTo(eventName, legDistance, swimmers, legTimes, i)) == TotalOf(legTimes[..i])
  {
    if i > 0 {
      SavedUpToTotal(eventName, legDistance, swimmers, legTimes, i - 1);
      assert legTimes[..i][..i - 1] == legTimes[..i - 1];
      var r := SavedUpTo(eventName, legDistance, swimmers, legTimes, i);
      var r' := SavedUpTo(eventName, legDistance, swimmers, legTimes, i - 1);
      if legTimes[i - 1].Some? {
        assert r[..|r| - 1] == r';
      } else {
        assert r == r';
      }
    }
  }

  /** The saved legs carry the relay's whole leg-time total: no leg time is lost or doubled. */
  lemma SavedLegsTotal(eventName: string, eventDistance: nat, swimmers: seq<RelaySwimmer>, splits: seq<int>)
    requires swimmers != [] && splits != []
    ensures SecondsOf(SavedLegs(eventName, eventDistance, swimmers, splits))
         == TotalOf(LegTimes(splits, |swimmers|, eventDistance))
  {
    var n := |swimmers|;
    var legTimes := LegTimes(splits, n, eventDistance);
    SavedUpToTotal(eventName, eventDistance / n, swimmers, legTimes, n);
    assert legTimes[..n] == legTimes;
  }

  /** The positions among the first `i` whose leg time is there, in order. */
  function Present(legTimes: seq<Option<int>>, i: nat): (r: seq<nat>)
    ensures forall k :: 0 <= k < |r| ==> r[k] < i && r[k] < |legTimes| && legTimes[r[k]].Some?
  {
    if i == 0 then []
    else Present(legTimes, i - 1) + (if i - 1 < |legTimes| && legTimes[i - 1].Some? then [i - 1] else [])
  }

  lemma PresentStep(legTimes: seq<Option<int>>, j: nat)
    ensures Present(legTimes, j + 1)
         == Present(legTimes, j) + (if j < |legTimes| && legTimes[j].Some? then [j] else [])
  {
  }

  /**
   * The saved rows are, in order, the legs of the swimmers whose leg time is
   * there, each with that leg's time.
   */
  lemma {:induction false} SavedUpToLegs(eventName: string, legDistance: nat, swimmers: seq<RelaySwimmer>,
                                         legTimes: seq<Option<int>>, i: nat)
    requires i <= |swimmers|
    ensures var r := SavedUpTo(eventName, legDistance, swimmers, legTimes, i);
      var p := Present(legTimes, i);
      |r| == |p|
      && forall k :: 0 <= k < |r| ==>
           r[k] == LegRow(eventName, legDistance, swimmers[p[k]], p[k], legTimes[p[k]].value)
  {
    if i > 0 {
      hide *;
      var j := i - 1;
      SavedUpToLegs(eventName, legDistance, swimmers, legTimes, j);
      SavedUpToStep(eventName, legDistance, swimmers, legTimes, j);
      PresentStep(legTimes, j);
      var r, r' := SavedUpTo(eventName, legDistance, swimmers, legTimes, i), SavedUpTo(eventName, legDistance, swimmers, legTimes, j);
      var p, p' := Present(legTimes, i), Present(legTimes, j);
      assert j + 1 == i;
      forall k | 0 <= k < |r|
        ensures r[k] == LegRow(eventName, legDistance, swimmers[p[k]], p[k], legTimes[p[k]].value)
      {
        if k < |r'| {
          assert r[k] == r'[k] && p[k] == p'[k];
        }
      }
    }
  }

  /**
   * A saved leg read back by `parse_swimmer_times` files under its leg distance
   * and stroke, with its time, and is lead-off eligible exactly when it was leg 1.
   */
  lemma SavedLegReadBack(eventName: string, legDistance: nat, sw: RelaySwimmer, i: nat, t: int)
    requires sw.name != "" && t > 0
    ensures var x := LegRow(eventName, legDistance, sw, i, t);
      TimeOf(Row(Some(x.eventName), Some(x.distance), Some(x.seconds), Some(x.name)))
      == Some((sw.name, (legDistance, LegStroke(eventName, i)),
               Entry(t, sw.leg == 1, if sw.leg == 1 then LeadOff else RelaySplit)))
    ensures var x := LegRow(eventName, legDistance, sw, i, t);
      TimeToSeconds(x.finalsTime) == Some(t)
  {
    var s := LegStroke(eventName, i);
    ExtractStrokeOfLeg(legDistance, s, sw.leg);
    LegSuffixWords(legDistance, s, sw.leg);
    FormatTimeRoundTrip(t);
  }

  // -------------------------------------------------------------------------
  // The roster as `save_relay_legs` reads it back
  // -------------------------------------------------------------------------

  /** One value of a roster entry after its trip through the JSON column. */
  datatype Cell = Str(s: string) | Num(n: int) | Null

  /**
   * The stored form of a parser roster entry: the list of its name, year, leg
   * and reaction time, four values in all.
   */
  function Stored(e: Results.RelaySwimmer): seq<Cell> {
    [Str(e.name), Str(e.year), Num(e.leg), if e.reaction.Some? then Num(e.reaction.value) else Null]
  }

  function StoredRoster(roster: seq<Results.RelaySwimmer>): (r: seq<seq<Cell>>)
    ensures |r| == |roster|
    ensures forall i :: 0 <= i < |roster| ==> |r[i]| == 4
  {
    seq(|roster|, i requires 0 <= i < |roster| => Stored(roster[i]))
  }

  /**
   * The saving loop as written, counting the legs it saves: none stands for
   * the `ValueError` that `name, year, leg = swimmer` raises on an entry that
   * does not hold exactly three values. Swimmers without a leg time are
   * skipped before the unpacking.
   */
  function SavedCountAsWritten(entries: seq<seq<Cell>>, legTimes: seq<Option<int>>, i: nat): (r: Option<nat>)
    requires i <= |entries|
    ensures r.None? <==>
      exists j :: 0 <= j < i && j < |legTimes| && legTimes[j].Some? && |entries[j]| != 3
    ensures r.Some? ==> r.value == |Present(legTimes, i)|
  {
    if i == 0 then Some(0)
    else
      var prev := SavedCountAsWritten(entries, legTimes, i - 1);
      PresentStep(legTimes, i - 1);
      if prev.None? then None
      else if i - 1 >= |legTimes| || legTimes[i - 1].None? then prev
      else if |entries[i - 1]| != 3 then None
      else Some(prev.value + 1)
  }

  /** `save_relay_legs` as written on the stored roster: the legs saved, or none when it raises. */
  function SaveRelayLegsAsWritten(eventDistance: nat, entries: seq<seq<Cell>>, splits: seq<int>): Option<nat> {
    if entries == [] || splits == [] then Some(0)
    else SavedCountAsWritten(entries, LegTimes(splits, |entries|, eventDistance), |entries|)
  }

  /** With splits present, the lead-off leg always has a time. */
  lemma LeadOffTimed(splits: seq<int>, n: nat, distance: nat)
    requires splits != [] && n > 0
    ensures LegTimes(splits, n, distance)[0].Some?
  {
    if |splits| != n {
      var k := SplitsPerLeg(n, distance);
      assert LegTimes(splits, n, distance)[0] == LegTime(splits, 0 * k, k);
    }
  }

  /**
   * On every roster the parser stores, with splits present, the code as
   * written raises on the first swimmer and saves no leg.
   */
  lemma StoredRosterRaises(eventDistance: nat, roster: seq<Results.RelaySwimmer>, splits: seq<int>)
    requires roster != [] && splits != []
    ensures SaveRelayLegsAsWritten(eventDistance, StoredRoster(roster), splits) == None
  {
    var entries := StoredRoster(roster);
    var legTimes := LegTimes(splits, |entries|, eventDistance);
    LeadOffTimed(splits, |entries|, eventDistance);
    assert 0 < |legTimes| && legTimes[0].Some? && |entries[0]| != 3;
  }

  /** The intended reading of a stored entry: its first three values. */
  function Decoded(e: Results.RelaySwimmer): RelaySwimmer {
    RelaySwimmer(e.name, e.year, e.leg)
  }

  function DecodedRoster(roster: seq<Results.RelaySwimmer>): (r: seq<RelaySwimmer>)
    ensures |r| == |roster|
    ensures forall i :: 0 <= i < |roster| ==> r[i] == Decoded(roster[i])
  {
    seq(|roster|, i requires 0 <= i < |roster| => Decoded(roster[i]))
  }

  lemma {:induction false} PresentHead(legTimes: seq<Option<int>>, i: nat)
    requires 1 <= i && legTimes != [] && legTimes[0].Some?
    ensures Present(legTimes, i) != [] && Present(legTimes, i)[0] == 0
  {
    PresentStep(legTimes, i - 1);
    if i > 1 {
      PresentHead(legTimes, i - 1);
    } else {
      assert Present(legTimes, 0) == [];
    }
  }

  /**
   * Reading the stored roster by its first three values, the saving loop
   * never raises: it saves one leg per timed swimmer, the lead-off first,
   * under the stored entry's name and year and with the lead-off's leg time.
   */
  lemma StoredRosterSaved(eventName: string, eventDistance: nat, roster: seq<Results.RelaySwimmer>, splits: seq<int>)
    requires roster != [] && splits != []
    ensures var legTimes := LegTimes(splits, |roster|, eventDistance);
      var r := SavedLegs(eventName, eventDistance, DecodedRoster(roster), splits);
      |r| == |Present(legTimes, |roster|)|
      && r != [] && r[0].name == roster[0].name && r[0].year == roster[0].year
      && Some(r[0].seconds) == legTimes[0]
  {
    var n := |roster|;
    var swimmers := DecodedRoster(roster);
    var legTimes := LegTimes(splits, n, eventDistance);
    LeadOffTimed(splits, n, eventDistance);
    PresentHead(legTimes, n);
    SavedUpToLegs(eventName, eventDistance / n, swimmers, legTimes, n);
    assert SavedLegs(eventName, eventDistance, swimmers, splits)
        == SavedUpTo(eventName, eventDistance / n, swimmers, legTimes, n);
  }

  // -------------------------------------------------------------------------
  // The greedy relay lineup
  // -------------------------------------------------------------------------

  /** A time may fill the position: any time for a later leg, an eligible one for the lead-off. */
  predicate Usable(e: Entry, leadOff: bool) {
    !leadOff || e.eligible
  }

  /** A swimmer's best usable time and its source: the first of the least times. */
  function Best(es: seq<Entry>, leadOff: bool): (r: Option<(int, Source)>)
    ensures r.None? <==> forall i :: 0 <= i < |es| ==> !Usable(es[i], leadOff)
    ensures r.Some? ==> forall i :: 0 <= i < |es| && Usable(es[i], leadOff) ==> r.value.0 <= es[i].time
  {
    if es == [] then None
    else
      var b := Best(es[..|es| - 1], leadOff);
      var e := es[|es| - 1];
      if !Usable(e, leadOff) then b
      else if b.None? || e.time < b.value.0 then Some((e.time, e.source))
      else b
  }

  /** The best time is that of a usable entry, and of the first usable entry with that time. */
  lemma {:induction false} BestIsFirstLeast(es: seq<Entry>, leadOff: bool)
    requires Best(es, leadOff).Some?
    ensures exists i :: 0 <= i < |es| && Usable(es[i], leadOff)
                        && Best(es, leadOff) == Some((es[i].time, es[i].source))
                        && forall j :: 0 <= j < i && Usable(es[j], leadOff) ==> es[j].time > es[i].time
  {
    var init := es[..|es| - 1];
    var e := es[|es| - 1];
    var b := Best(init, leadOff);
    if Usable(e, leadOff) && (b.None? || e.time < b.value.0) {
      var i := |es| - 1;
      forall j | 0 <= j < i && Usable(es[j], leadOff) ensures es[j].time > es[i].time {
        assert es[j] == init[j];
      }
    } else {
      BestIsFirstLeast(init, leadOff);
      var i :| 0 <= i < |init| && Usable(init[i], leadOff) && b == Some((init[i].time, init[i].source))
               && forall j :: 0 <= j < i && Usable(init[j], leadOff) ==> init[j].time > init[i].time;
      assert es[i] == init[i];
      forall j | 0 <= j < i && Usable(es[j], leadOff) ensures es[j].time > es[i].time {
        assert es[j] == init[j];
      }
    }
  }

  /** `get best eligible time`: the loop over a swimmer's times for one key. */
  method BestTime(es: seq<Entry>, leadOff: bool) returns (best: Option<(int, Source)>)
    ensures best == Best(es, leadOff)
  {
    best := None;
    for i := 0 to |es|
      invariant best == Best(es[..i], leadOff)
    {
      assert es[..i + 1][..i] == es[..i];
      var e := es[i];
      if leadOff && !e.eligible {
        continue;
      }
      if best.None? || e.time < best.value.0 {
        best := Some((e.time, e.source));
      }
    }
    assert es[..|es|] == es;
  }

  datatype Candidate = Candidate(swimmer: string, time: int, source: Source)

  /** The swimmer can take the leg: not yet placed, and with a usable time under the key. */
  predicate Available(st: SwimmerTimes, n: string, used: set<string>, key: Key, leadOff: bool) {
    n !in used && n in st.table && key in st.table[n] && Best(st.table[n][key], leadOff).Some?
  }

  /** The candidates for a leg, in the order of the names. */
  function Candidates(st: SwimmerTimes, names: seq<string>, used: set<string>, key: Key, leadOff: bool): (cs: seq<Candidate>)
    ensures forall c <- cs :: c.swimmer in names && Available(st, c.swimmer, used, key, leadOff)
                              && Best(st.table[c.swimmer][key], leadOff) == Some((c.time, c.source))
  {
    if names == [] then []
    else
      var cs := Candidates(st, names[..|names| - 1], used, key, leadOff);
      var n := names[|names| - 1];
      if Available(st, n, used, key, leadOff) then
        var b := Best(st.table[n][key], leadOff).value;
        cs + [Candidate(n, b.0, b.1)]
      else cs
  }

  /** Every available swimmer among the names is a candidate. */
  lemma {:induction false} CandidatesComplete(st: SwimmerTimes, names: seq<string>, used: set<string>, key: Key, leadOff: bool, n: string)
    requires n in names && Available(st, n, used, key, leadOff)
    ensures exists c <- Candidates(st, names, used, key, leadOff) :: c.swimmer == n
  {
    var init := names[..|names| - 1];
    if names[|names| - 1] != n {
      assert n in init;
      CandidatesComplete(st, init, used, key, leadOff, n);
    } else {
      var b := Best(st.table[n][key], leadOff).value;
      assert Candidates(st, names, used, key, leadOff)[|Candidates(st, names, used, key, leadOff)| - 1]
          == Candidate(n, b.0, b.1);
    }
  }

  /**
   * The candidate a stable sort by time puts first: the earliest of those with
   * the least time.
   */
  function Fastest(cs: seq<Candidate>): (i: nat)
    requires cs != []
    ensures i < |cs|
    ensures forall j :: 0 <= j < |cs| ==> cs[i].time <= cs[j].time
    ensures forall j :: 0 <= j < i ==> cs[j].time > cs[i].time
  {
    if |cs| == 1 then 0
    else
      var k := Fastest(cs[..|cs| - 1]);
      if cs[|cs| - 1].time < cs[k].time then |cs| - 1 else k
  }

  /** One lineup position: (swimmer, stroke, time, source), or only the stroke when nobody is left. */
  datatype Leg = Leg(swimmer: Option<string>, stroke: Stroke, time: Option<int>, source: Option<Source>)

  /** One leg of `compute_single_relay`: the fastest candidate, or an empty leg. */
  function PickLeg(st: SwimmerTimes, distance: nat, s: Stroke, leadOff: bool, used: set<string>): Leg {
    var cs := Candidates(st, st.order, used, (distance, s), leadOff);
    if cs == [] then Leg(None, s, None, None)
    else
      var c := cs[Fastest(cs)];
      Leg(Some(c.swimmer), s, Some(c.time), Some(c.source))
  }

  /** The swimmers placed on some of the legs. */
  function Placed(legs: seq<Leg>): set<string> {
    set i | 0 <= i < |legs| && legs[i].swimmer.Some? :: legs[i].swimmer.value
  }

  /** The legs for the strokes, leg by leg, each swimmer used at most once. */
  function Lineup(st: SwimmerTimes, distance: nat, strokes: seq<Stroke>): (legs: seq<Leg>)
    ensures |legs| == |strokes|
  {
    if strokes == [] then []
    else
      var legs := Lineup(st, distance, strokes[..|strokes| - 1]);
      legs + [PickLeg(st, distance, strokes[|strokes| - 1], |strokes| == 1, Placed(legs))]
  }

  /** The strokes of the four legs: the given order for a medley, four freestyle legs otherwise. */
  function RelayStrokes(strokes: seq<Stroke>, isMedley: bool): seq<Stroke> {
    if isMedley then strokes else [Freestyle, Freestyle, Freestyle, Freestyle]
  }

  /** `compute_single_relay`. */
  method ComputeSingleRelay(st: SwimmerTimes, distance: nat, strokes: seq<Stroke>, isMedley: bool)
    returns (relay: seq<Leg>)
    ensures relay == Lineup(st, distance, RelayStrokes(strokes, isMedley))
  {
    hide Lineup, Candidates;
    var legStrokes := if isMedley then strokes else [Freestyle, Freestyle, Freestyle, Freestyle];
    relay := [];
    var usedSwimmers: set<string> := {};
    for legIdx := 0 to |legStrokes|
      invariant relay == Lineup(st, distance, legStrokes[..legIdx])
      invariant usedSwimmers == Placed(relay)
    {
      LineupStep(st, distance, legStrokes, legIdx);
      var stroke := legStrokes[legIdx];
      var isLeadOff := legIdx == 0;
      var key := (distance, stroke);
      var candidates := FindCandidates(st, usedSwimmers, key, isLeadOff);
      var leg: Leg;
      if candidates == [] {
        leg := Leg(None, stroke, None, None);
      } else {
        var c := candidates[Fastest(candidates)];
        leg := Leg(Some(c.swimmer), stroke, Some(c.time), Some(c.source));
        usedSwimmers := usedSwimmers + {c.swimmer};
      }
      PlacedSnoc(relay, leg);
      relay := relay + [leg];
    }
    assert legStrokes[..|legStrokes|] == legStrokes;
  }

  /** The loop over the swimmers collecting each one's best usable time. */
  method FindCandidates(st: SwimmerTimes, used: set<string>, key: Key, leadOff: bool)
    returns (candidates: seq<Candidate>)
    ensures candidates == Candidates(st, st.order, used, key, leadOff)
  {
    candidates := [];
    for i := 0 to |st.order|
      invariant candidates == Candidates(st, st.order[..i], used, key, leadOff)
    {
      assert st.order[..i + 1][..i] == st.order[..i];
      var swimmer := st.order[i];
      if swimmer in used || swimmer !in st.table || key !in st.table[swimmer] {
        continue;
      }
      var best := BestTime(st.table[swimmer][key], leadOff);
      if best.Some? {
        candidates := candidates + [Candidate(swimmer, best.value.0, best.value.1)];
      }
    }
    assert st.order[..|st.order|] == st.order;
  }

  lemma LineupStep(st: SwimmerTimes, distance: nat, strokes: seq<Stroke>, k: nat)
    requires k < |strokes|
    ensures Lineup(st, distance, strokes[..k + 1])
         == Lineup(st, distance, strokes[..k])
            + [PickLeg(st, distance, strokes[k], k == 0, Placed(Lineup(st, distance, strokes[..k])))]
  {
    hide PickLeg, Placed;
    assert strokes[..k + 1][..k] == strokes[..k];
  }

  lemma PlacedSnoc(legs: seq<Leg>, leg: Leg)
    ensures Placed(legs + [leg]) == Placed(legs) + (if leg.swimmer.Some? then {leg.swimmer.value} else {})
  {
    var l := legs + [leg];
    forall n | n in Placed(l) ensures n in Placed(legs) || (leg.swimmer.Some? && n == leg.swimmer.value) {
      var i :| 0 <= i < |l| && l[i].swimmer.Some? && l[i].swimmer.value == n;
      if i < |legs| {
        assert legs[i] == l[i];
      }
    }
    forall n | n in Placed(legs) ensures n in Placed(l) {
      var i :| 0 <= i < |legs| && legs[i].swimmer.Some? && legs[i].swimmer.value == n;
      assert l[i] == legs[i];
    }
    if leg.swimmer.Some? {
      assert l[|legs|] == leg;
    }
  }

  /** The legs so far are the lineup of the strokes so far. */
  lemma {:induction false} LineupPrefix(st: SwimmerTimes, distance: nat, strokes: seq<Stroke>, i: nat)
    requires i <= |strokes|
    ensures Lineup(st, distance, strokes)[..i] == Lineup(st, distance, strokes[..i])
    decreases |strokes|
  {
    hide PickLeg, Placed;
    if i < |strokes| {
      var init := strokes[..|strokes| - 1];
      LineupPrefix(st, distance, init, i);
      assert init[..i] == strokes[..i];
      assert Lineup(st, distance, strokes)[..|strokes| - 1] == Lineup(st, distance, init);
    } else {
      assert strokes[..i] == strokes;
    }
  }

  /**
   * The lineup is built greedily: each leg is the pick for its stroke among the
   * swimmers not placed on an earlier leg, with the lead-off rule on leg 0 only.
   */
  lemma LineupGreedy(st: SwimmerTimes, distance: nat, strokes: seq<Stroke>, i: nat)
    requires i < |strokes|
    ensures var legs := Lineup(st, distance, strokes);
      legs[i] == PickLeg(st, distance, strokes[i], i == 0, Placed(legs[..i]))
  {
    hide PickLeg, Placed;
    LineupPrefix(st, distance, strokes, i + 1);
    LineupPrefix(st, distance, strokes, i);
    LineupStep(st, distance, strokes, i);
    var legs := Lineup(st, distance, strokes);
    assert legs[..i + 1][i] == legs[i];
  }

  /**
   * One leg: the stroke asked for; empty exactly when no listed swimmer is
   * available; otherwise an available swimmer with a best usable time no worse
   * than any other available swimmer's.
   */
  lemma PickLegSpec(st: SwimmerTimes, distance: nat, s: Stroke, leadOff: bool, used: set<string>)
    ensures var leg := PickLeg(st, distance, s, leadOff, used);
      leg.stroke == s
      && (leg.swimmer.None? <==> forall n <- st.order :: !Available(st, n, used, (distance, s), leadOff))
      && (leg.swimmer.None? ==> leg.time.None? && leg.source.None?)
    ensures var leg := PickLeg(st, distance, s, leadOff, used);
      leg.swimmer.Some? ==>
        var w := leg.swimmer.value;
        Available(st, w, used, (distance, s), leadOff)
        && Best(st.table[w][(distance, s)], leadOff) == Some((leg.time.value, leg.source.value))
        && forall n <- st.order :: Available(st, n, used, (distance, s), leadOff) ==>
             leg.time.value <= Best(st.table[n][(distance, s)], leadOff).value.0
  {
    var key := (distance, s);
    var cs := Candidates(st, st.order, used, key, leadOff);
    forall n <- st.order | Available(st, n, used, key, leadOff)
      ensures exists c <- cs :: c.swimmer == n
    {
      CandidatesComplete(st, st.order, used, key, leadOff, n);
    }
    if cs != [] {
      var k := Fastest(cs);
      assert cs[k] in cs;
      forall n <- st.order | Available(st, n, used, key, leadOff)
        ensures cs[k].time <= Best(st.table[n][key], leadOff).value.0
      {
        var c :| c in cs && c.swimmer == n;
        var j :| 0 <= j < |cs| && cs[j] == c;
      }
    }
  }

  /** No swimmer swims two legs. */
  lemma LineupNoRepeat(st: SwimmerTimes, distance: nat, strokes: seq<Stroke>, i: nat, j: nat)
    requires i < j < |strokes|
    ensures var legs := Lineup(st, distance, strokes);
      legs[i].swimmer.Some? && legs[j].swimmer.Some? ==> legs[i].swimmer != legs[j].swimmer
  {
    var legs := Lineup(st, distance, strokes);
    LineupGreedy(st, distance, strokes, j);
    PickLegSpec(st, distance, strokes[j], j == 0, Placed(legs[..j]));
    if legs[i].swimmer.Some? {
      assert legs[..j][i] == legs[i];
      assert legs[i].swimmer.value in Placed(legs[..j]);
    }
  }

  /** The lead-off swimmer's time is one of that swimmer's lead-off eligible times. */
  lemma LeadOffEligible(st: SwimmerTimes, distance: nat, strokes: seq<Stroke>)
    requires strokes != []
    ensures var leg := Lineup(st, distance, strokes)[0];
      var key := (distance, strokes[0]);
      leg.swimmer.Some? ==>
        leg.time.Some? && leg.source.Some?
        && leg.swimmer.value in st.table && key in st.table[leg.swimmer.value]
        && exists e <- st.table[leg.swimmer.value][key] ::
             e.eligible && e.time == leg.time.value && e.source == leg.source.value
  {
    var leg := Lineup(st, distance, strokes)[0];
    LineupGreedy(st, distance, strokes, 0);
    PickLegSpec(st, distance, strokes[0], true, Placed(Lineup(st, distance, strokes)[..0]));
    if leg.swimmer.Some? {
      var es := st.table[leg.swimmer.value][(distance, strokes[0])];
      BestIsFirstLeast(es, true);
      var i :| 0 <= i < |es| && Usable(es[i], true) && Best(es, true) == Some((es[i].time, es[i].source))
               && forall j :: 0 <= j < i && Usable(es[j], true) ==> es[j].time > es[i].time;
      assert es[i] in es;
    }
  }

  /** Every entry the results give keeps eligibility and source in step. */
  lemma {:induction false} EntriesOfConsistent(rows: seq<Row>, name: string, key: Key)
    ensures forall e <- EntriesOf(rows, name, key) :: (e.eligible <==> e.source != RelaySplit)
  {
    if rows != [] {
      EntriesOfConsistent(rows[..|rows| - 1], name, key);
    }
  }

  /** Built from results, the lineup never leads off with a later relay leg's split. */
  lemma LeadOffNeverRelaySplit(rows: seq<Row>, distance: nat, strokes: seq<Stroke>, isMedley: bool)
    requires RelayStrokes(strokes, isMedley) != []
    ensures var leg := Lineup(SwimmerTimesOf(rows), distance, RelayStrokes(strokes, isMedley))[0];
      leg.swimmer.Some? ==> leg.source != Some(RelaySplit)
  {
    var st := SwimmerTimesOf(rows);
    var ss := RelayStrokes(strokes, isMedley);
    var leg := Lineup(st, distance, ss)[0];
    LeadOffEligible(st, distance, ss);
    if leg.swimmer.Some? {
      var key := (distance, ss[0]);
      var e :| e in st.table[leg.swimmer.value][key] && e.eligible
               && e.time == leg.time.value && e.source == leg.source.value;
      SwimmerTimesGroups(rows, leg.swimmer.value, key);
      EntriesOfConsistent(rows, leg.swimmer.value, key);
    }
  }
}
