/**
 * `parse_text_block` and `_flush`: the loop over the lines of one column of a
 * results page. It follows the event and the round in force, records every event
 * header it meets in the event map, and builds results from result lines, adding
 * the splits, reaction times, DQ reasons and relay swimmers of the lines after them.
 *
 * The loop is specified line by line: `Classify` says what a line does given the
 * state before it, `Apply` what that does to the state, and `Run` folds the two
 * over the lines. `ParseTextBlock` is the loop itself, proved equal to that fold.
 */
module BlockParser {
  import opened Wrappers
  import opened Text
  import opened Scan
  import opened Events
  import opened Splits
  import opened Roster
  import opened Results
  import opened Times

  /** `re.match(r'^\d+\s+[A-Z]', line)`: a place number, blanks, a capital letter. */
  predicate PlaceThenCapital(t: string) {
    match Number(t)
    case None => false
    case Some((_, rest)) =>
      match Gap(rest)
      case None => false
      case Some(v) => v != "" && IsUpper(v[0])
  }

  // -------------------------------------------------------------------------
  // Relay legs
  // -------------------------------------------------------------------------

  /** `leg_num if leg_num else relay_leg`: a missing or zero leg number takes the counter. */
  function LegOf(e: RosterEntry, counter: nat): nat {
    match e.leg
    case Some(n) => if n != 0 then n else counter
    case None => counter
  }

  /** The counter after a swimmer: one more than before, or one past its own leg number. */
  function NextCounter(e: RosterEntry, counter: nat): nat {
    match e.leg
    case Some(n) => n + 1
    case None => counter + 1
  }

  function Swimmer(e: RosterEntry, counter: nat): RelaySwimmer {
    RelaySwimmer(e.name, e.year, LegOf(e, counter), e.reaction)
  }

  /** The swimmers of one roster line, with their legs, and the counter after them. */
  function Legs(entries: seq<RosterEntry>, counter: nat): (r: (seq<RelaySwimmer>, nat))
    ensures |r.0| == |entries|
    ensures counter >= 1 ==> r.1 >= 1 && forall s <- r.0 :: s.leg >= 1
    decreases |entries|
  {
    if entries == [] then ([], counter)
    else
      var rest := Legs(entries[1..], NextCounter(entries[0], counter));
      ([Swimmer(entries[0], counter)] + rest.0, rest.1)
  }

  /** The loop over `parse_relay_swimmers(line)` that appends to the pending swimmers. */
  method AppendSwimmers(entries: seq<RosterEntry>, pending: seq<RelaySwimmer>, counter: nat)
    returns (pending': seq<RelaySwimmer>, counter': nat)
    ensures pending' == pending + Legs(entries, counter).0
    ensures counter' == Legs(entries, counter).1
  {
    hide Legs;
    pending', counter' := pending, counter;
    var i := 0;
    while i < |entries|
      invariant i <= |entries|
      invariant pending' + Legs(entries[i..], counter').0 == pending + Legs(entries, counter).0
      invariant Legs(entries[i..], counter').1 == Legs(entries, counter).1
    {
      var e := entries[i];
      var leg := if e.leg.Some? && e.leg.value != 0 then e.leg.value else counter';
      LegsAt(entries, i, counter');
      pending' := pending' + [RelaySwimmer(e.name, e.year, leg, e.reaction)];
      if e.leg.None? {
        counter' := counter' + 1;
      } else {
        counter' := e.leg.value + 1;
      }
      i := i + 1;
    }
    assert entries[i..] == [];
    LegsNone(counter');
  }

  lemma LegsAt(entries: seq<RosterEntry>, i: nat, counter: nat)
    requires i < |entries|
    ensures var rest := Legs(entries[i + 1..], NextCounter(entries[i], counter));
      Legs(entries[i..], counter) == ([Swimmer(entries[i], counter)] + rest.0, rest.1)
  {
    assert entries[i..][1..] == entries[i + 1..];
  }

  lemma LegsNone(counter: nat)
    ensures Legs([], counter) == ([], counter)
  {
  }

  /** Each swimmer keeps the name, year and reaction time its roster entry gives. */
  lemma {:induction false} LegsKeepEntries(entries: seq<RosterEntry>, counter: nat)
    ensures var r := Legs(entries, counter).0;
      forall i :: 0 <= i < |entries| ==>
        r[i].name == entries[i].name && r[i].year == entries[i].year && r[i].reaction == entries[i].reaction
    decreases |entries|
  {
    if entries != [] {
      LegsKeepEntries(entries[1..], NextCounter(entries[0], counter));
    }
  }

  /** Without leg numbers the swimmers take consecutive legs from the counter on. */
  lemma {:induction false} LegsCounted(entries: seq<RosterEntry>, counter: nat)
    requires forall e <- entries :: e.leg.None?
    ensures var r := Legs(entries, counter);
      r.1 == counter + |entries| && forall i :: 0 <= i < |entries| ==> r.0[i].leg == counter + i
    decreases |entries|
  {
    if entries != [] {
      assert entries[0] in entries;
      assert forall e <- entries[1..] :: e in entries;
      LegsCounted(entries[1..], counter + 1);
    }
  }

  /** With non-zero leg numbers each swimmer keeps its own, and the counter goes one past the last. */
  lemma {:induction false} LegsNumbered(entries: seq<RosterEntry>, counter: nat)
    requires entries != [] && forall e <- entries :: e.leg.Some? && e.leg.value != 0
    ensures var r := Legs(entries, counter);
      r.1 == entries[|entries| - 1].leg.value + 1
      && forall i :: 0 <= i < |entries| ==> r.0[i].leg == entries[i].leg.value
    decreases |entries|
  {
    assert entries[0] in entries;
    if |entries| > 1 {
      assert forall e <- entries[1..] :: e in entries;
      LegsNumbered(entries[1..], NextCounter(entries[0], counter));
    }
  }

  // -------------------------------------------------------------------------
  // The state of the loop and `_flush`
  // -------------------------------------------------------------------------

  /** The variables of `parse_text_block`, with the event map it updates. */
  datatype Block = Block(
    results: seq<SwimResult>,
    current: Option<SwimResult>,
    pending: seq<RelaySwimmer>,
    leg: nat,
    event: Option<EventHeader>,
    round: Option<string>,
    events: map<nat, EventHeader>)

  /** `_flush`: the open result, given the pending swimmers when there are any, joins the results. */
  function Flushed(results: seq<SwimResult>, current: Option<SwimResult>, pending: seq<RelaySwimmer>)
    : (r: seq<SwimResult>)
    ensures |r| == |results| + (if current.Some? then 1 else 0) && r[..|results|] == results
    ensures current.Some? ==> r[|results|].relaySwimmers == if pending != [] then pending else current.value.relaySwimmers
    ensures current.Some? ==> r[|results|] == current.value.(relaySwimmers := r[|results|].relaySwimmers)
  {
    match current
    case None => results
    case Some(c) => results + [if pending != [] then c.(relaySwimmers := pending) else c]
  }

  /** The reset at an event header: flush, no open result, no pending swimmers, leg 1. */
  function Closed(b: Block): Block {
    b.(results := Flushed(b.results, b.current, b.pending), current := None, pending := [], leg := 1)
  }

  /** A split line's splits extend the open result's; its reaction time fills an empty one. */
  function WithSplits(c: SwimResult, splits: seq<int>, reaction: Option<int>): SwimResult {
    c.(splits := c.splits + splits,
       reactionTime := if reaction.Some? && c.reactionTime.None? then reaction else c.reactionTime)
  }

  // -------------------------------------------------------------------------
  // One line
  // -------------------------------------------------------------------------

  /** What a line does. */
  datatype Action =
    | Ignore
    | SetRound(name: string)
    | SetDqReason(reason: string)
    | Resume(number: nat)
    | Open(header: EventHeader)
    | AddSplits(splits: seq<int>, reaction: Option<int>)
    | AddSwimmers(entries: seq<RosterEntry>)
    | AddResult(result: SwimResult, relay: bool)

  /** The tests of the loop body, in the source's order, on the stripped line `t`. */
  function Classify(b: Block, t: string, fmt: string): Action {
    hide *;
    if t == "" then Ignore
    else if DetectRound(t).Some? then SetRound(DetectRound(t).value)
    else if IsHeaderLine(t) then Ignore
    else if b.current.Some? && b.current.value.isDq && IsDqReasonLine(t) then SetDqReason(t)
    else if ContinuedEvent(t).Some? then
      if ContinuedEvent(t).value in b.events then Resume(ContinuedEvent(t).value) else Ignore
    else if ParseEventHeader(t).Some? then Open(ParseEventHeader(t).value)
    else EventAction(b, t, fmt)
  }

  /** The tests that need a swimming event in force: split, relay swimmer and result lines. */
  function EventAction(b: Block, t: string, fmt: string): Action {
    hide *;
    if b.event.None? || b.event.value.isDiving then Ignore
    else if IsSplitLine(t) then
      if b.current.Some? then AddSplits(SplitsOf(t).0, SplitsOf(t).1) else Ignore
    else if b.event.value.isRelay && IsRelaySwimmerLine(t) && !PlaceThenCapital(t) then
      AddSwimmers(RelaySwimmers(t))
    else ResultAction(b.event.value, t, fmt)
  }

  /** A result line: the relay or the individual grammars, as the event says. */
  function ResultAction(e: EventHeader, t: string, fmt: string): Action {
    hide *;
    var r := if e.isRelay then ParseRelayResult(t, e, fmt) else ParseIndividualResult(t, e, fmt);
    if r.Some? then AddResult(r.value, e.isRelay) else Ignore
  }

  lemma EventActionIdle(b: Block, t: string, fmt: string)
    requires b.event.None? || b.event.value.isDiving
    ensures EventAction(b, t, fmt) == Ignore
  {
    hide IsSplitLine, SplitsOf, IsRelaySwimmerLine, RelaySwimmers, ResultAction, PlaceThenCapital;
  }

  lemma EventActionSplit(b: Block, t: string, fmt: string)
    requires b.event.Some? && !b.event.value.isDiving && IsSplitLine(t)
    ensures EventAction(b, t, fmt) == if b.current.Some? then AddSplits(SplitsOf(t).0, SplitsOf(t).1) else Ignore
  {
    hide IsSplitLine, SplitsOf, IsRelaySwimmerLine, RelaySwimmers, ResultAction, PlaceThenCapital;
  }

  lemma EventActionSwimmers(b: Block, t: string, fmt: string)
    requires b.event.Some? && !b.event.value.isDiving && !IsSplitLine(t)
    requires b.event.value.isRelay && IsRelaySwimmerLine(t) && !PlaceThenCapital(t)
    ensures EventAction(b, t, fmt) == AddSwimmers(RelaySwimmers(t))
  {
    hide IsSplitLine, SplitsOf, IsRelaySwimmerLine, RelaySwimmers, ResultAction, PlaceThenCapital;
  }

  lemma EventActionResult(b: Block, t: string, fmt: string)
    requires b.event.Some? && !b.event.value.isDiving && !IsSplitLine(t)
    requires !(b.event.value.isRelay && IsRelaySwimmerLine(t) && !PlaceThenCapital(t))
    ensures EventAction(b, t, fmt) == ResultAction(b.event.value, t, fmt)
  {
    hide IsSplitLine, SplitsOf, IsRelaySwimmerLine, RelaySwimmers, ResultAction, PlaceThenCapital;
  }

  /** What an action does to the state. */
  function Apply(b: Block, a: Action): Block {
    match a
    case Ignore => b
    case SetRound(name) => b.(round := Some(name))
    case SetDqReason(reason) =>
      if b.current.Some? then b.(current := Some(b.current.value.(dqReason := Some(reason)))) else b
    case Resume(n) => if n in b.events then Closed(b).(event := Some(b.events[n])) else b
    case Open(h) => Closed(b).(event := Some(h), round := h.round, events := b.events[h.number := h])
    case AddSplits(splits, reaction) =>
      if b.current.Some? then b.(current := Some(WithSplits(b.current.value, splits, reaction))) else b
    case AddSwimmers(entries) =>
      var (swimmers, next) := Legs(entries, b.leg);
      b.(pending := b.pending + swimmers, leg := next)
    case AddResult(r, relay) =>
      var stamped := r.(round := b.round);
      if relay then Closed(b).(current := Some(stamped))
      else
        var done := if b.current.Some? then [b.current.value] else [];
        b.(results := b.results + done, current := Some(stamped))
  }

  /** One iteration of the loop. */
  function Step(b: Block, line: string, fmt: string): Block {
    Apply(b, Classify(b, Strip(line), fmt))
  }

  /** The loop over `lines`. */
  function Run(b: Block, lines: seq<string>, fmt: string): Block
    decreases |lines|
  {
    hide Step;
    if lines == [] then b else Run(Step(b, lines[0], fmt), lines[1..], fmt)
  }

  function Init(events: map<nat, EventHeader>, lastEvent: Option<EventHeader>, lastRound: Option<string>): Block {
    Block([], None, [], 1, lastEvent, lastRound, events)
  }

  /** `parse_text_block` as a value: the results, the event and round in force at the end, the event map. */
  function TextBlock(text: string, events: map<nat, EventHeader>, lastEvent: Option<EventHeader>,
                     fmt: string, lastRound: Option<string>)
    : (seq<SwimResult>, Option<EventHeader>, Option<string>, map<nat, EventHeader>)
  {
    var b := Run(Init(events, lastEvent, lastRound), SplitOn(text, '\n'), fmt);
    (Flushed(b.results, b.current, b.pending), b.event, b.round, b.events)
  }

  // -------------------------------------------------------------------------
  // The loop
  // -------------------------------------------------------------------------

  lemma RunUnfold(b: Block, lines: seq<string>, i: nat, fmt: string)
    requires i < |lines|
    ensures (hide Step; Run(b, lines[i..], fmt) == Run(Step(b, lines[i], fmt), lines[i + 1..], fmt))
  {
    hide Step;
    assert lines[i..][1..] == lines[i + 1..];
  }

  lemma RunEmpty(b: Block, fmt: string)
    ensures Run(b, [], fmt) == b
  {
    hide Step;
  }

  /** The part of the loop body after the event checks: a split line, a relay swimmer line or a result line. */
  method ParseEventLine(line: string, fmt: string, e: EventHeader, round: Option<string>,
                        ghost events: map<nat, EventHeader>, results: seq<SwimResult>, current: Option<SwimResult>,
                        pending: seq<RelaySwimmer>, relayLeg: nat)
    returns (results': seq<SwimResult>, current': Option<SwimResult>, pending': seq<RelaySwimmer>, relayLeg': nat)
    requires !e.isDiving
    ensures var b := Block(results, current, pending, relayLeg, Some(e), round, events);
      Block(results', current', pending', relayLeg', Some(e), round, events) == Apply(b, EventAction(b, line, fmt))
  {
    hide IsSplitLine, SplitsOf, IsRelaySwimmerLine, RelaySwimmers, ParseRelayResult, ParseIndividualResult,
      PlaceThenCapital, Legs, Flushed, EventAction, FinalsAgree, FromEvent, TimeToSeconds, TimeShape, IsRelayLetter;
    ghost var b := Block(results, current, pending, relayLeg, Some(e), round, events);
    results', current', pending', relayLeg' := results, current, pending, relayLeg;
    if IsSplitLine(line) {
      EventActionSplit(b, line, fmt);
      if current.Some? {
        var splits, reaction := ParseSplits(line);
        var c := current.value;
        current' := Some(c.(splits := c.splits + splits,
                            reactionTime := if reaction.Some? && c.reactionTime.None? then reaction else c.reactionTime));
      }
    } else if e.isRelay && IsRelaySwimmerLine(line) && !PlaceThenCapital(line) {
      EventActionSwimmers(b, line, fmt);
      var swimmers := ParseRelaySwimmers(line);
      pending', relayLeg' := AppendSwimmers(swimmers, pending, relayLeg);
    } else {
      EventActionResult(b, line, fmt);
      var result: Option<SwimResult>;
      if e.isRelay {
        result := ParseRelayResult(line, e, fmt);
        if result.Some? {
          results' := Flushed(results, current, pending);
          pending', relayLeg' := [], 1;
        }
      } else {
        result := ParseIndividualResult(line, e, fmt);
      }
      if result.Some? {
        var r := result.value.(round := round);
        if current.Some? && !e.isRelay {
          results' := results + [current.value];
        }
        current' := Some(r);
      }
    }
  }

  /**
   * `parse_text_block`. The caller's event map is updated in place by the source;
   * here the updated map is returned.
   */
  method ParseTextBlock(text: string, eventMap: map<nat, EventHeader>, lastEvent: Option<EventHeader>,
                        fmt: string, lastRound: Option<string>)
    returns (results: seq<SwimResult>, currentEvent: Option<EventHeader>, currentRound: Option<string>,
             events: map<nat, EventHeader>)
    ensures (results, currentEvent, currentRound, events) == TextBlock(text, eventMap, lastEvent, fmt, lastRound)
  {
    hide DetectRound, IsHeaderLine, IsDqReasonLine, ContinuedEvent, ParseEventHeader, EventAction,
      Strip, Flushed, SplitOn, Run;
    results, currentEvent, currentRound, events := [], lastEvent, lastRound, eventMap;
    var current: Option<SwimResult> := None;
    var pending: seq<RelaySwimmer> := [];
    var relayLeg: nat := 1;
    var lines := SplitOn(text, '\n');
    var i := 0;
    while i < |lines|
      invariant i <= |lines|
      invariant Run(Block(results, current, pending, relayLeg, currentEvent, currentRound, events), lines[i..], fmt)
             == Run(Init(eventMap, lastEvent, lastRound), lines, fmt)
    {
      ghost var before := Block(results, current, pending, relayLeg, currentEvent, currentRound, events);
      RunUnfold(before, lines, i, fmt);
      var line := Strip(lines[i]);
      ghost var action := Classify(before, line, fmt);
      if line == "" {
      } else if DetectRound(line).Some? {
        currentRound := DetectRound(line);
      } else if IsHeaderLine(line) {
      } else if current.Some? && current.value.isDq && IsDqReasonLine(line) {
        current := Some(current.value.(dqReason := Some(line)));
      } else if ContinuedEvent(line).Some? {
        var n := ContinuedEvent(line).value;
        if n in events {
          results := Flushed(results, current, pending);
          current, pending, relayLeg := None, [], 1;
          currentEvent := Some(events[n]);
        }
      } else if ParseEventHeader(line).Some? {
        var h := ParseEventHeader(line).value;
        results := Flushed(results, current, pending);
        current, pending, relayLeg := None, [], 1;
        currentEvent, currentRound := Some(h), h.round;
        events := events[h.number := h];
      } else if currentEvent.None? || currentEvent.value.isDiving {
        EventActionIdle(before, line, fmt);
      } else {
        results, current, pending, relayLeg :=
          ParseEventLine(line, fmt, currentEvent.value, currentRound, events, results, current, pending, relayLeg);
      }
      assert Block(results, current, pending, relayLeg, currentEvent, currentRound, events) == Step(before, lines[i], fmt);
      i := i + 1;
    }
    assert lines[i..] == [];
    RunEmpty(Block(results, current, pending, relayLeg, currentEvent, currentRound, events), fmt);
    results := Flushed(results, current, pending);
  }

  // -------------------------------------------------------------------------
  // Properties of the loop
  // -------------------------------------------------------------------------

  /** How many results have been made: the finished ones and the open one. */
  function Emitted(b: Block): nat {
    |b.results| + if b.current.Some? then 1 else 0
  }

  /** The number of result lines among `lines`, each judged in the state the loop is in when it reaches it. */
  function ResultLines(b: Block, lines: seq<string>, fmt: string): nat
    decreases |lines|
  {
    hide Step, Classify;
    if lines == [] then 0
    else
      (if Classify(b, Strip(lines[0]), fmt).AddResult? then 1 else 0)
      + ResultLines(Step(b, lines[0], fmt), lines[1..], fmt)
  }

  lemma StepIs(b: Block, line: string, fmt: string)
    ensures Step(b, line, fmt) == Apply(b, Classify(b, Strip(line), fmt))
  {
    hide Apply, Classify;
  }

  /** An action never takes back a result; it adds one exactly when it is a result. */
  lemma ApplyEmits(b: Block, a: Action)
    ensures b.results <= Apply(b, a).results
    ensures Emitted(Apply(b, a)) == Emitted(b) + if a.AddResult? then 1 else 0
  {
    hide Legs;
  }

  /** A line never takes back a result; it adds one exactly when it is a result line. */
  lemma StepEmits(b: Block, line: string, fmt: string)
    ensures b.results <= Step(b, line, fmt).results
    ensures Emitted(Step(b, line, fmt)) == Emitted(b) + if Classify(b, Strip(line), fmt).AddResult? then 1 else 0
  {
    hide *;
    StepIs(b, line, fmt);
    ApplyEmits(b, Classify(b, Strip(line), fmt));
  }

  /** Over many lines: the results only grow, by one per result line. */
  lemma {:induction false} RunEmits(b: Block, lines: seq<string>, fmt: string)
    ensures b.results <= Run(b, lines, fmt).results
    ensures Emitted(Run(b, lines, fmt)) == Emitted(b) + ResultLines(b, lines, fmt)
    decreases |lines|
  {
    hide Step, Classify;
    if lines != [] {
      StepEmits(b, lines[0], fmt);
      RunEmits(Step(b, lines[0], fmt), lines[1..], fmt);
    }
  }

  /** `parse_text_block` loses no result and repeats none: one result per result line. */
  lemma TextBlockCount(text: string, events: map<nat, EventHeader>, lastEvent: Option<EventHeader>,
                       fmt: string, lastRound: Option<string>)
    ensures |TextBlock(text, events, lastEvent, fmt, lastRound).0|
         == ResultLines(Init(events, lastEvent, lastRound), SplitOn(text, '\n'), fmt)
  {
    hide Step, Classify, Run, SplitOn, ResultLines;
    RunEmits(Init(events, lastEvent, lastRound), SplitOn(text, '\n'), fmt);
  }

  // -------------------------------------------------------------------------
  // The invariant of the loop
  // -------------------------------------------------------------------------

  predicate LegsOk(swimmers: seq<RelaySwimmer>) {
    forall s <- swimmers :: s.leg >= 1
  }

  /** What every finished result satisfies. */
  predicate ResultOk(r: SwimResult) {
    FinalsAgree(r) && (!r.isRelay ==> r.relaySwimmers == []) && LegsOk(r.relaySwimmers)
  }

  /** The event map is keyed by event number. */
  predicate Keyed(events: map<nat, EventHeader>) {
    forall n <- events :: events[n].number == n
  }

  /**
   * The open result belongs to the swimming event in force and has no swimmers
   * yet; swimmers wait only in relay events and never on leg 0; the counter is
   * at least 1; every finished result is well formed.
   */
  predicate Consistent(b: Block) {
    b.leg >= 1
    && Keyed(b.events)
    && LegsOk(b.pending)
    && (b.pending != [] ==> b.event.Some? && b.event.value.isRelay)
    && (b.current.Some? ==>
          b.event.Some? && !b.event.value.isDiving
          && b.current.value.isRelay == b.event.value.isRelay
          && b.current.value.eventNumber == b.event.value.number
          && FinalsAgree(b.current.value) && b.current.value.relaySwimmers == [])
    && (forall r <- b.results :: ResultOk(r))
  }

  /** What each kind of action carries, as far as the invariant needs it. */
  predicate ActionOk(b: Block, a: Action) {
    (a.AddResult? ==>
       b.event.Some? && !b.event.value.isDiving && a.relay == b.event.value.isRelay
       && a.result.isRelay == a.relay && a.result.eventNumber == b.event.value.number
       && FinalsAgree(a.result) && a.result.relaySwimmers == [])
    && (a.AddSwimmers? ==> b.event.Some? && b.event.value.isRelay)
    && (a.Resume? ==> a.number in b.events)
  }

  lemma ActionFacts(b: Block, t: string, fmt: string)
    ensures ActionOk(b, Classify(b, t, fmt))
  {
    hide DetectRound, IsHeaderLine, IsDqReasonLine, ContinuedEvent, ParseEventHeader, EventAction,
      FinalsAgree, FromEvent, IsSplitLine, IsRelaySwimmerLine, PlaceThenCapital, ResultAction, SplitsOf, RelaySwimmers;
    if b.event.None? || b.event.value.isDiving {
      EventActionIdle(b, t, fmt);
    } else if IsSplitLine(t) {
      EventActionSplit(b, t, fmt);
    } else if b.event.value.isRelay && IsRelaySwimmerLine(t) && !PlaceThenCapital(t) {
      EventActionSwimmers(b, t, fmt);
    } else {
      EventActionResult(b, t, fmt);
      ResultActionFacts(b.event.value, t, fmt);
    }
  }

  lemma ResultActionFacts(e: EventHeader, t: string, fmt: string)
    ensures var a := ResultAction(e, t, fmt);
      a.Ignore? || (a.AddResult? && a.relay == e.isRelay && a.result.isRelay == e.isRelay
                    && a.result.eventNumber == e.number && FinalsAgree(a.result) && a.result.relaySwimmers == [])
  {
    hide FinalsAgree;
  }

  /** Whether the seconds agree with the time depends on the time, the seconds and the scratch flag only. */
  lemma AgreeKept(c: SwimResult, d: SwimResult)
    requires FinalsAgree(c)
    requires d.finalsTime == c.finalsTime && d.finalsSeconds == c.finalsSeconds && d.isScratch == c.isScratch
    ensures FinalsAgree(d)
  {
  }

  lemma FlushedOk(b: Block)
    requires Consistent(b)
    ensures forall r <- Flushed(b.results, b.current, b.pending) :: ResultOk(r)
  {
    hide Flushed, FinalsAgree;
    var f := Flushed(b.results, b.current, b.pending);
    if b.current.Some? {
      AgreeKept(b.current.value, f[|b.results|]);
    }
    forall r <- f
      ensures ResultOk(r)
    {
      var k :| 0 <= k < |f| && f[k] == r;
      if k < |b.results| {
        assert f[..|b.results|][k] == r;
      }
    }
  }

  /** Each action the loop can take keeps the invariant. */
  lemma ApplyConsistent(b: Block, a: Action)
    requires Consistent(b) && ActionOk(b, a)
    ensures Consistent(Apply(b, a))
  {
    hide Flushed, FinalsAgree;
    var next := Apply(b, a);
    match a
    case Resume(n) =>
      FlushedOk(b);
    case Open(h) =>
      FlushedOk(b);
    case AddResult(r, relay) =>
      AgreeKept(r, next.current.value);
      if relay {
        FlushedOk(b);
      } else {
        forall x <- b.results + (if b.current.Some? then [b.current.value] else [])
          ensures ResultOk(x)
        {
        }
      }
    case AddSwimmers(entries) =>
      assert forall s <- next.pending :: s in b.pending || s in Legs(entries, b.leg).0;
    case SetDqReason(_) =>
      if b.current.Some? {
        AgreeKept(b.current.value, next.current.value);
      }
    case AddSplits(_, _) =>
      if b.current.Some? {
        AgreeKept(b.current.value, next.current.value);
      }
    case _ =>
  }

  /** Each line keeps the invariant. */
  lemma StepConsistent(b: Block, line: string, fmt: string)
    requires Consistent(b)
    ensures Consistent(Step(b, line, fmt))
  {
    hide *;
    StepIs(b, line, fmt);
    ActionFacts(b, Strip(line), fmt);
    ApplyConsistent(b, Classify(b, Strip(line), fmt));
  }

  /** The invariant holds at the end of any run of lines that starts in it. */
  lemma {:induction false} RunConsistent(b: Block, lines: seq<string>, fmt: string)
    requires Consistent(b)
    ensures Consistent(Run(b, lines, fmt))
    decreases |lines|
  {
    hide Step, Consistent;
    if lines != [] {
      StepConsistent(b, lines[0], fmt);
      RunConsistent(Step(b, lines[0], fmt), lines[1..], fmt);
    }
  }

  /**
   * Every result `parse_text_block` returns has seconds that agree with its time;
   * only relay results carry swimmers, and none of them on leg 0; the event map
   * stays keyed by event number.
   */
  lemma TextBlockResultsOk(text: string, events: map<nat, EventHeader>, lastEvent: Option<EventHeader>,
                           fmt: string, lastRound: Option<string>)
    requires Keyed(events)
    ensures var (results, _, _, events') := TextBlock(text, events, lastEvent, fmt, lastRound);
      (forall r <- results :: ResultOk(r)) && Keyed(events')
  {
    hide Step, Run, SplitOn, ResultOk, Keyed;
    var b0 := Init(events, lastEvent, lastRound);
    assert Consistent(b0);
    RunConsistent(b0, SplitOn(text, '\n'), fmt);
    FlushedOk(Run(b0, SplitOn(text, '\n'), fmt));
  }

  // -------------------------------------------------------------------------
  // What the kinds of line do
  // -------------------------------------------------------------------------

  /** `d` is `c` with only its splits, reaction time and DQ reason possibly changed. */
  predicate Annotated(c: SwimResult, d: SwimResult) {
    d == c.(splits := d.splits, reactionTime := d.reactionTime, dqReason := d.dqReason)
  }

  /**
   * Round markers, DQ reasons, split lines and relay swimmer lines neither make nor
   * close a result: the finished results stay as they are, and the open result keeps
   * everything but its splits (which only grow), its reaction time (which, once set,
   * stays) and its DQ reason (set only on a disqualified result).
   */
  lemma Annotations(b: Block, a: Action)
    requires a.SetRound? || a.SetDqReason? || a.AddSplits? || a.AddSwimmers? || a.Ignore?
    ensures var next := Apply(b, a);
      next.results == b.results && next.current.Some? == b.current.Some? && next.event == b.event
      && (b.current.Some? ==>
            var c, d := b.current.value, next.current.value;
            Annotated(c, d) && c.splits <= d.splits
            && (c.reactionTime.Some? ==> d.reactionTime == c.reactionTime)
            && (d.dqReason != c.dqReason ==> a.SetDqReason? && d.dqReason == Some(a.reason)))
  {
    hide Legs;
  }

  /** A DQ reason line is taken only while the open result is a disqualification. */
  lemma DqReasonOnlyAfterDq(b: Block, t: string, fmt: string)
    requires Classify(b, t, fmt).SetDqReason?
    ensures b.current.Some? && b.current.value.isDq && Classify(b, t, fmt).reason == t
  {
    hide DetectRound, IsHeaderLine, IsDqReasonLine, ContinuedEvent, ParseEventHeader, EventAction;
    EventActionKinds(b, t, fmt);
  }

  lemma EventActionKinds(b: Block, t: string, fmt: string)
    ensures var a := EventAction(b, t, fmt); a.Ignore? || a.AddSplits? || a.AddSwimmers? || a.AddResult?
  {
    hide IsSplitLine, SplitsOf, IsRelaySwimmerLine, RelaySwimmers, ResultAction, PlaceThenCapital, FinalsAgree;
    if b.event.Some? && !b.event.value.isDiving {
      ResultActionFacts(b.event.value, t, fmt);
    }
  }

  /** A split line adds its splits to the open result and sets its reaction time if it had none. */
  lemma SplitsAdded(b: Block, splits: seq<int>, reaction: Option<int>)
    requires b.current.Some?
    ensures var d := Apply(b, AddSplits(splits, reaction)).current.value;
      d.splits == b.current.value.splits + splits
      && d.reactionTime == (if b.current.value.reactionTime.None? then reaction else b.current.value.reactionTime)
  {
  }

  /** In a diving event no line makes a result or adds splits or swimmers. */
  lemma DivingLinesIgnored(b: Block, t: string, fmt: string)
    requires b.event.Some? && b.event.value.isDiving
    ensures var a := Classify(b, t, fmt);
      !a.AddResult? && !a.AddSplits? && !a.AddSwimmers?
  {
    hide DetectRound, IsHeaderLine, IsDqReasonLine, ContinuedEvent, ParseEventHeader, EventAction;
    EventActionIdle(b, t, fmt);
  }

  /**
   * A new event header closes the open result, records itself in the event map
   * under its number and sets the round to its own; a continued header for a known
   * event closes the open result and goes back to that event, keeping the round.
   * No other line touches the event map.
   */
  lemma EventLines(b: Block, a: Action)
    ensures var next := Apply(b, a);
      next.events == (if a.Open? then b.events[a.header.number := a.header] else b.events)
      && (a.Open? ==>
            next.event == Some(a.header) && next.round == a.header.round && next.current.None?
            && next.pending == [] && next.leg == 1 && next.results == Flushed(b.results, b.current, b.pending))
      && (a.Resume? && a.number in b.events ==>
            next.event == Some(b.events[a.number]) && next.round == b.round && next.current.None?
            && next.pending == [] && next.leg == 1 && next.results == Flushed(b.results, b.current, b.pending))
  {
    hide Flushed, Legs;
  }

  /** The event map only gains numbers. */
  lemma {:induction false} RunKeepsEvents(b: Block, lines: seq<string>, fmt: string)
    ensures b.events.Keys <= Run(b, lines, fmt).events.Keys
    decreases |lines|
  {
    hide Step, Classify, Apply;
    if lines != [] {
      var a := Classify(b, Strip(lines[0]), fmt);
      StepIs(b, lines[0], fmt);
      EventLines(b, a);
      RunKeepsEvents(Step(b, lines[0], fmt), lines[1..], fmt);
    }
  }

  /**
   * A result takes the round in force when its line is read: that of the last
   * round marker, or else that of the last event header.
   */
  lemma ResultTakesRound(b: Block, a1: Action, r: SwimResult, relay: bool)
    requires a1.SetRound? || a1.Open?
    ensures var next := Apply(Apply(b, a1), AddResult(r, relay));
      next.current == Some(r.(round := if a1.SetRound? then Some(a1.name) else a1.header.round))
  {
    hide Flushed, Legs;
  }

  /**
   * The swimmers listed under a relay result are attached to it when the next
   * event header closes it (or the text ends), with legs counted from 1.
   */
  lemma RelaySwimmersAttached(b: Block, r: SwimResult, entries: seq<RosterEntry>, h: EventHeader)
    requires entries != []
    ensures var b1 := Apply(b, AddResult(r, true));
      var b2 := Apply(b1, AddSwimmers(entries));
      var relay := r.(round := b.round, relaySwimmers := Legs(entries, 1).0);
      Apply(b2, Open(h)).results == Flushed(b.results, b.current, b.pending) + [relay]
      && Flushed(b2.results, b2.current, b2.pending) == Flushed(b.results, b.current, b.pending) + [relay]
  {
    hide Legs;
    var legs := Legs(entries, 1).0;
    assert legs != [] && [] + legs == legs;
  }

  /** Swimmers listed before the first relay result of an event are dropped when that result arrives. */
  lemma SwimmersBeforeFirstRelayDropped(b: Block, r: SwimResult)
    requires b.current.None?
    ensures Apply(b, AddResult(r, true)).results == b.results
    ensures Apply(b, AddResult(r, true)).pending == []
  {
  }

  /** An individual result closes the open one as it is, without swimmers. */
  lemma IndividualResultCloses(b: Block, r: SwimResult)
    requires b.current.Some?
    ensures Apply(b, AddResult(r, false)).results == b.results + [b.current.value]
    ensures Apply(b, AddResult(r, false)).pending == b.pending
  {
  }
}
