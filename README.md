# HY-TEK results parser and relay helpers, modelled in Dafny

This project models the text-parsing core of a swim-meet results reader for
HY-TEK Meet Manager PDF exports. It also models the relay-arithmetic and
lineup helpers of the desktop tool built on top of it.

The parser reads the text of each page column line by line. It recognises:

- event headers, continued event headers and round markers;
- page furniture, which it skips;
- disqualification reasons;
- split lines and relay rosters;
- result lines in the invitational and dual-meet layouts.

From these it builds one result record per swimmer or relay. The document
assembly then:

- merges the columns;
- removes duplicate records;
- repairs a known truncated team name;
- sorts the table by event and place.

The relay helpers:

- turn a relay's splits into per-leg times;
- name and store the legs as individual swims;
- index every swimmer's times by distance and stroke;
- pick a greedy relay lineup with no swimmer used twice, where the lead-off
  leg only counts times that are valid for a lead-off.

Every time value is an integer number of hundredths of a second. A Python
`None` is an `Option`. A dictionary whose insertion order matters is a
sequence of keys beside a map. Each regular expression of the source is a
hand-written matcher for the shapes it accepts. Most of these matchers work on
the whitespace-separated words of a line.

The modules follow the source:

- `Times`: time conversion and display.
- `Text` and `Scan`: string helpers.
- `Events`: event headers and line classifiers.
- `Splits`: the split tokenizer.
- `Roster`: relay rosters.
- `NameRecovery`: name, year and team recovery.
- `Results`: the result grammars.
- `BlockParser`: the per-column state machine.
- `Assembly`: the document tail.
- `EventNames`: the event-name helpers of the desktop tool.
- `Relays`: the relay helpers of the desktop tool.

Where the source updates state step by step, the model is a method with a
loop. Each such method is proved equal to a specification function, and the
properties are proved about that function. These methods are:

- `Splits.ParseSplits`;
- `Roster.ParseRelaySwimmers`;
- `BlockParser.ParseTextBlock`;
- `Assembly.ParseHytekPdf`;
- `Relays.CalculateLegTimes`;
- `Relays.ParseSwimmerTimes`;
- `Relays.SaveRelayLegs`;
- `Relays.ComputeSingleRelay`.

## Model

| member | source | states |
|---|---|---|
| Times.TimeToSeconds | hytek_parser.py:57-60 | The empty text and the status words SCR, DQ, NS, DFS and NT give no time |
| Times.StripIgnored | hytek_parser.py:61 | Whitespace around a time does not change its value |
| Times.ExhibitionMarkIgnored | hytek_parser.py:61 | A leading exhibition mark `x` on a token does not change its value |
| Times.MinutesForm | hytek_parser.py:63-67 | `m:ss.cc` converts to m*6000 + ss*100 + cc hundredths |
| Times.SecondsForm | hytek_parser.py:68-69 | A bare `ss.cc` converts to its own value in hundredths |
| Times.NegativeForm | hytek_parser.py:68-69 | `-ss.cc` converts to the negated value |
| Times.ParseDecimalOf | hytek_parser.py:66 | `float` on `a.f` gives a*100 plus the fraction rounded half up to hundredths |
| Times.ParseIntDigits | hytek_parser.py:65 | `int` on a digit string gives its value |
| Times.RefusedTexts | hytek_parser.py:59-71 | The texts refused outright would also fail the conversion itself, so the early return changes no answer |
| Times.LooksLikeTimeConverts | hytek_parser.py:74-79 | Every text `looks_like_time` accepts is converted by `time_to_seconds` (it never yields none) |
| Times.TimeShapeParses | hytek_parser.py:74 | A token of the shape `(\d+:)?\d+\.\d+` has no blanks and converts |
| Times.FormatTime | gui.py:886-888 | The display text is empty exactly when there is no time |
| Times.FormatText | gui.py:889-894 | From one minute on, the text is `M:SS.cc` with two-digit seconds; below a minute it is `S.cc` |
| Times.FormatTimeRoundTrip | gui.py:886-894 | Reading the display text back with `time_to_seconds` gives the same hundredths, for every value |
| Times.NatToStringValue | gui.py:891 | The decimal digits printed for a number read back as that number |
| Events.ParseEventHeader | hytek_parser.py:239-320 | A header has gender Women or Men, and a name that starts with that gender. A diving header is never a relay, has no round and has stroke Diving |
| Events.SwimmingHeaderRoundTrip | hytek_parser.py:251-291 | A swimming header reads back as its number, gender and distance. Its relay flag is set exactly when `Relay` is written. Free/Back/Breast/Fly become full names, and Medley becomes Medley for relays and IM otherwise. A Time Trial or Swim-off suffix is removed from the stroke and becomes the round. The name is gender, distance and stroke, with ` Relay` for relays |
| Events.RelayFlagOf | hytek_parser.py:258 | The relay flag is true exactly when the descriptor contains `Relay` |
| Events.RoundRemovedOf | hytek_parser.py:258-280 | The descriptor yields the normalised stroke, the relay flag and the round named by the suffix |
| Events.DivingHeaderRoundTrip | hytek_parser.py:294-305 | A springboard header gives a diving event whose distance is the board height and whose name keeps the digits as written |
| Events.PlatformHeaderRoundTrip | hytek_parser.py:307-318 | A platform header gives a diving event of distance 0 |
| Events.DivingBodyOf | hytek_parser.py:251-305 | A `N mtr Diving` header does not match the swimming pattern and is read by the diving one |
| Events.PlatformBodyOf | hytek_parser.py:251-318 | `Platform Diving` matches neither earlier pattern and is read by the platform one |
| Events.DetectRound | hytek_parser.py:333-347 | A round marker names the round Finals or Prelim, or none |
| Events.RoundMarkerFirst | hytek_parser.py:333-347 | Every accepted round marker starts with A, B, C, P or T, in either case |
| Events.HeaderFirst | hytek_parser.py:251 | Every event header starts with `#` or `E` |
| Events.ContinuedFirst | hytek_parser.py:327 | Every continued header starts with `(` |
| Events.ClassifiersExclusive | hytek_parser.py:1213-1240 | A round marker is neither a continued nor a new event header, and a continued header is not a new one. So the order of the tests in the block parser only matters for page furniture and DQ reasons |
| Events.StandardLineSkipped | hytek_parser.py:390-392 | A time-standard line such as `1:36.24 A` or `16:25.29 NCAA` is skipped as a header line |
| Splits.ParseSplits | hytek_parser.py:421-492 | The method computes exactly the splits and reaction time of `SplitsOf` |
| Splits.SplitsOf | hytek_parser.py:466-490 | Every returned split lies between 10 s and 1200 s |
| Splits.Tokenize | hytek_parser.py:445-464 | The tokenizing loop produces exactly the token list `TokensFrom` defines |
| Splits.TokensShape | hytek_parser.py:453-464 | Every bare token is a non-empty word without `(`, and every parenthesised token holds no `)` |
| Splits.ReactionPrefixOf | hytek_parser.py:436-443 | A leading `r:a.f` becomes the reaction time and is removed, with the blanks after it, before tokenizing |
| Splits.NoParensInRange | hytek_parser.py:485-490 | Without parenthesised tokens, the splits are the in-range values of the tokens, in order |
| Splits.CumulativeDropped | hytek_parser.py:469-484 | On the relay layout where every value is followed by its split in parentheses, the cumulative values are dropped and the splits are exactly the in-range parenthesised values, in order |
| Splits.RemoveParensKeeps | hytek_parser.py:514 | Removing parenthesised diffs leaves text without `(` unchanged |
| Splits.RemoveParensGroup | hytek_parser.py:514 | A non-empty `( ... )` group is dropped whole |
| Roster.ParseRelaySwimmers | hytek_parser.py:531-592 | The method computes exactly `RelaySwimmers` |
| Roster.RelaySwimmers | hytek_parser.py:548-592 | Every returned swimmer's name contains a comma. Either every swimmer has a leg number (the numbered format) or none has a leg or reaction time (the unnumbered fallback) |
| Roster.FixMergedAgeSplits | hytek_parser.py:544-545 | A two-digit age glued to a leg marker (`184)`) is split into `18 4)` |
| Roster.FixMergedAgeKeeps | hytek_parser.py:544-545 | Text without `)` is unchanged by that repair |
| Roster.SegmentsOfRoster | hytek_parser.py:549-556 | Splitting a roster written as `d)content` legs at its leg markers gives back its legs and their numbers |
| Roster.SegmentReaction | hytek_parser.py:557-569 | A leading `r:a.f` in a segment becomes that leg's reaction time, and the rest is read for name and year |
| Roster.SegmentEntry | hytek_parser.py:571-578 | A numbered swimmer has a name with a comma, a year or two-digit age, and the leg of its marker |
| Roster.FallbackEntries | hytek_parser.py:584-590 | Unnumbered swimmers have a name with a comma and no leg or reaction time |
| Roster.FallbackOf | hytek_parser.py:585-586 | `Surname, First YR ...` yields the name and year as the first match, and matching continues after it |
| NameRecovery.ExtractNameYearTeam | hytek_parser.py:929-1033 | A triple is always returned. Its year is none or a class code. Its name has no run of whitespace. With no team found, the result is the collapsed blob with no year and an empty team |
| NameRecovery.MergedTeam | hytek_parser.py:943-955 | Strategy 1: `Name, First M YRTEAM` and `Name, First MYRTEAM` split into name, year and team |
| NameRecovery.SpacedDashTeam | hytek_parser.py:957-985 | Strategy 2: `Name, First [M] YR PRE-SU` gives the name, the year and the dash team code |
| NameRecovery.DashSkipsDown | hytek_parser.py:964-969 | Team lengths that would reach back over a blank are skipped in the longest-first search |
| NameRecovery.DashAttemptFound | hytek_parser.py:965-985 | A team length whose text before it ends in a year code gives that year and team |
| NameRecovery.SpacedPlainTeam | hytek_parser.py:1012-1029 | Strategy 4: `Name [M] YR TEAM` with a plain 2-6 capital team gives the stripped name, the year and the team |
| NameRecovery.YearSuffixSpaced | hytek_parser.py:1019-1023 | A year code after a blank at the end is found whichever class code it is |
| NameRecovery.RothwellVivien | hytek_parser.py:933-934 | `Rothwell, Vivien E JR GTCH` gives (`Rothwell, Vivien E`, JR, GTCH) |
| NameRecovery.CrushJohnny | hytek_parser.py:935 | `Crush, Johnny R SO ARMY` gives (`Crush, Johnny R`, SO, ARMY) |
| NameRecovery.BrownAllison | hytek_parser.py:936 | `Brown, Allison SR GTCH` gives (`Brown, Allison`, SR, GTCH) |
| NameRecovery.ProsinskiRaymond | hytek_parser.py:937 | `Prosinski, Raymond P JR SCAR-SC` gives (`Prosinski, Raymond P`, JR, SCAR-SC) |
| NameRecovery.RichardsonChris | hytek_parser.py:938 | `Richardson, Chris ESRGTCH-GA` gives (`Richardson, Chris E`, SR, GTCH-GA) |
| NameRecovery.DaltonAlexis | hytek_parser.py:939 | `Dalton, Alexis S FRSCAR-SC` gives (`Dalton, Alexis S`, FR, SCAR-SC) |
| Results.PlaceValue | hytek_parser.py:685 | The place is none exactly when the place column is `---` |
| Results.LeadOf | hytek_parser.py:656-685 | A matched lead has a place that is none exactly for `---`, and an age when the pattern has one |
| Results.Cleaned | hytek_parser.py:823-829 | The exhibition flag is set exactly for a leading x. DQ is set exactly for `DQ`. Scratch is set exactly for SCR, DFS or NS. Seconds are present exactly when the finals column is a time |
| Results.TailFrom | hytek_parser.py:767-821 | The lazy name group leaves the longest tail that fits the columns. No longer tail fits |
| Results.IndividualInvitational | hytek_parser.py:647-852 | A result is individual, takes its event's fields, has a place that is none exactly for `---`, has seconds that agree with its finals time, and is never both DQ and scratch |
| Results.InvitationalFits | hytek_parser.py:665-799 | The first age pattern whose tail fits is the one used |
| Results.SeedDqTime | hytek_parser.py:665-699 | Pattern 1, `Seed DQ Time [Points]`: disqualified, not scratched, with the swum time as finals and its seconds, and the points kept |
| Results.SeedDqOnly | hytek_parser.py:701-733 | Pattern 2, `Seed DQ`: disqualified, finals `DQ`, no seconds |
| Results.WithoutAge | hytek_parser.py:800-821 | Pattern 5, with no age column, never returns a school that starts with a digit, and has no year |
| Results.IndividualDual | hytek_parser.py:854-927 | A dual-meet result takes its event's fields, has a place that is none exactly for `---`, has seconds that agree with its finals, and has a year that is none or a class code |
| Results.DualMain | hytek_parser.py:859-926 | The main dual pattern reads a line exactly when it has a place and a time, standard and points tail after the blob. The finals is the time column, the standard and points are the trailing columns, and name, year and team are recovered from the blob. The swim is a scratch exactly when the finals is SCR, a DQ exactly when the finals is DQ or the blob contains `DQ`, and an exhibition exactly when the time carries an `x` |
| Results.DualDq | hytek_parser.py:871-897 | The DQ fallback reads a line exactly when it has a place and a `DQ` marker after a non-empty blob. Its result is always a disqualified, non-scratch, non-exhibition swim. The finals is the time after the marker, or `DQ` when there is none. Standard and points are the columns after it, and name, year and team come from the blob before the marker |
| Results.DqMarker | hytek_parser.py:875 | The lazy blob stops at the first `DQ` in reading order after which the rest of the line reads as the fallback's columns |
| Results.DqGluedTime | hytek_parser.py:871-897 | A time glued to the marker (`ARMYDQ1:02.34`) becomes the finals, with its seconds, and the text before the marker is part of the blob |
| Results.DqMarkerBefore | hytek_parser.py:873 | The lazy blob stops at the first word that can be the DQ marker |
| Results.GluedDq | hytek_parser.py:871-897 | A `DQ` glued to the last word (`ARMYDQ`) is caught by the fallback as a disqualification |
| Results.DualDqThenSeconds | hytek_parser.py:859-927 | `... DQ 54.00` at the end of a line is read by the main pattern as status DQ with 54 points, before the DQ-with-time fallback is tried |
| Results.RothwellDual | hytek_parser.py:855-926 | `1 Rothwell, Vivien E JR GTCH 54.00 16` reads as place 1, name `Rothwell, Vivien E`, year JR, team GTCH, finals 54.00 (5400 hundredths), 16 points and no standard, and is not a DQ, scratch or exhibition swim |
| Results.DualScratchAndDq | hytek_parser.py:900-927 | In the dual grammar, a scratch whose name blob contains `DQ` is both disqualified and scratched |
| Results.RelayInvitational | hytek_parser.py:1063-1099 | A relay result has the relay flag, no year, name equal to team, a relay letter A-D, and seconds that agree with its finals. It is never both DQ and scratch |
| Results.RelayDual | hytek_parser.py:1101-1151 | The same relay facts hold. A result that is not a DQ takes its finals from the time column |
| Results.RelayDqTime | hytek_parser.py:1128-1140 | `DQ t` in the dual relay grammar is a disqualification whose finals is the real time t, with seconds |
| Results.RelayScratch | hytek_parser.py:1128-1140 | NS or SCR in the dual relay grammar is a scratch with no seconds |
| Results.ParseIndividualResult | hytek_parser.py:614-645 | The dispatcher returns individual results of the event whose seconds agree with their finals |
| Results.ParseRelayResult | hytek_parser.py:1040-1061 | The dispatcher returns relay results, named after their team, never both DQ and scratch |
| Results.JoinSplitDecimal | hytek_parser.py:636 | Joining a number broken after its decimal point removes at most one word and keeps every word non-empty |
| Results.DivingAsWritten | hytek_parser.py:1153-1192 | The diving parser as written raises only on lines that its pattern matches |
| Results.DivingRaisesWhen | hytek_parser.py:1159-1183 | It raises exactly when the matched score is not SCR and `float` rejects it |
| Results.DivingRaisesOnDottedScore | hytek_parser.py:1159-1183 | `1 Ng 1.2.3` is matched, and `float("1.2.3")` raises |
| Results.ParseDivingResult | hytek_parser.py:1153-1192 | A diving result is individual, never a DQ, and a scratch exactly when its score is SCR, in which case it has no seconds |
| Results.DivingCorrection | hytek_parser.py:1153-1192 | The corrected parser agrees with the as-written one wherever that returns. Where it raises, the corrected one returns a non-scratch result without seconds |
| Results.CleanedFinals | hytek_parser.py:825-829 | After the marks are stripped, a finals time converts and a status word does not |
| BlockParser.ParseTextBlock | hytek_parser.py:1194-1297 | The line loop computes exactly the fold `TextBlock` of the per-line step over the lines |
| BlockParser.ParseEventLine | hytek_parser.py:1257-1294 | After the event checks, a line is handled as a split line, a roster line or a result line, as `EventAction` says |
| BlockParser.AppendSwimmers | hytek_parser.py:1268-1276 | The roster loop appends exactly the swimmers `Legs` gives and leaves the leg counter where `Legs` says |
| BlockParser.LegsCounted | hytek_parser.py:1270-1274 | Unnumbered swimmers take consecutive legs from the counter, and the counter moves past them |
| BlockParser.LegsNumbered | hytek_parser.py:1270-1276 | Numbered swimmers keep their own legs, and the counter goes one past the last |
| BlockParser.LegsKeepEntries | hytek_parser.py:1271-1272 | Each swimmer keeps its roster name, year and reaction time |
| BlockParser.Flushed | hytek_parser.py:1300-1305 | Flushing appends the open result, if any, after the finished ones, with the pending swimmers attached when there are any |
| BlockParser.EventLines | hytek_parser.py:1226-1248 | A new header flushes, records itself in the event map, sets the event and its round, clears the swimmers and resets the leg counter to 1. A continued header for a known event does the same but keeps the round and the map |
| BlockParser.Annotations | hytek_parser.py:1212-1277 | Round markers, DQ reasons, split lines and roster lines add no result. They change only the open result's splits, reaction time and DQ reason |
| BlockParser.DqReasonOnlyAfterDq | hytek_parser.py:1221-1224 | A DQ reason is taken only while the open result is a disqualification, and it is the line itself |
| BlockParser.SplitsAdded | hytek_parser.py:1258-1263 | A split line extends the open result's splits and sets its reaction time only if it had none |
| BlockParser.DivingLinesIgnored | hytek_parser.py:1253-1255 | In a diving event no line makes a result or adds splits or swimmers |
| BlockParser.ResultTakesRound | hytek_parser.py:1290-1291 | A result carries the round in force when its line is read |
| BlockParser.RelaySwimmersAttached | hytek_parser.py:1280-1305 | The swimmers listed under a relay are attached to it, with legs counted from 1, when the next header or the end of the text closes it |
| BlockParser.SwimmersBeforeFirstRelayDropped | hytek_parser.py:1281-1286 | Swimmers pending before the first relay result of an event are dropped |
| BlockParser.IndividualResultCloses | hytek_parser.py:1290-1294 | A new individual result closes the open one as it is |
| BlockParser.TextBlockCount | hytek_parser.py:1194-1297 | No result is lost or repeated: the output has one result per line that produced one |
| BlockParser.RunEmits | hytek_parser.py:1207-1296 | Over any run of lines, earlier results stay a prefix, and the count grows by one per result line |
| BlockParser.TextBlockResultsOk | hytek_parser.py:1194-1305 | Every returned result has seconds that agree with its time. Only relays carry swimmers, and none of them has leg 0. The event map stays keyed by event number |
| BlockParser.RunKeepsEvents | hytek_parser.py:1247 | The event map only gains event numbers |
| Assembly.CollectHeaders | hytek_parser.py:1395-1402 | Pass 1 builds exactly `Headers` over every line of every column |
| Assembly.HeadersLastWins | hytek_parser.py:1396-1402 | After pass 1, each event number maps to the last header announcing it, and only announced numbers are present |
| Assembly.LastHeaderIsLast | hytek_parser.py:1396-1402 | The header kept is that of the last line announcing the event |
| Assembly.CollectResults | hytek_parser.py:1404-1413 | Pass 2 parses every column in turn, carrying the event, round and map, and concatenates the results as `Collect` says |
| Assembly.CollectOk | hytek_parser.py:1404-1413 | Every collected result is well formed, and the shared map stays keyed |
| Assembly.DedupKeepsFirst | hytek_parser.py:1445 | Deduplication keeps every key and, for each key, the first row carrying it, in the order of those first rows |
| Assembly.DedupDistinct | hytek_parser.py:1445 | No two kept rows share (name, event name, finals time, round) |
| Assembly.FixTeam | hytek_parser.py:1447-1452 | The truncated `Georgia Institute of Technolog` becomes the full name, and every other team is unchanged |
| Assembly.FixTeamsKeys | hytek_parser.py:1447-1452 | The team fix changes no dedup key and keeps the keys distinct |
| Assembly.SortFacts | hytek_parser.py:1454 | The sort orders rows by event number, then place with a missing place last, and is a permutation |
| Assembly.SortStable | hytek_parser.py:1454 | Rows with equal sort keys keep their relative order |
| Assembly.ParseHytekPdf | hytek_parser.py:1395-1454 | The method computes the two passes, then dedup, team fix and sort, and gives the empty table when there are no results |
| Assembly.AssembleProperties | hytek_parser.py:1415-1454 | The table is sorted, has one row per distinct key found in the document, keeps every row well formed, and has no truncated team name |
| Relays.CalculateLegTimes | gui.py:125-161 | The method computes exactly `LegTimes` |
| Relays.LegTimes | gui.py:1284-1311 | Empty splits or no swimmers give no legs. Otherwise there is one entry per swimmer. When there is one split per swimmer, the splits are returned unchanged. The second copy of the function is the same code, so one definition models both |
| Relays.LegTime | gui.py:145-159 | A leg is none exactly when it starts past the last split |
| Relays.LegTimeSpan | gui.py:145-159 | A leg's time is the sum of its splits, or of what remains of them when the data runs short |
| Relays.LegTimesTotal | gui.py:131-161 | The legs add up to the sum of the splits they cover |
| Relays.LegTimesMissingTrail | gui.py:155-159 | Once a leg is none, every later leg is none |
| Relays.SourceOf | gui.py:710-718 | A time is individual exactly when the event name has no relay suffix, and lead-off exactly when it says `(lead-off)` |
| Relays.TimeOf | gui.py:694-718 | A row counts exactly when it has a name, a positive time and a recognised stroke. It is keyed by distance and stroke, its source is `SourceOf` of the event name, and it is lead-off eligible exactly when the name is not a relay split or is a `(lead-off)` split |
| Relays.ParseSwimmerTimes | gui.py:683-726 | The loop builds exactly the table `SwimmerTimesOf` |
| Relays.SwimmerTimesGroups | gui.py:720-724 | A swimmer holds a (distance, stroke) group exactly when some row gives one, and the group lists those rows' entries in order |
| Relays.SwimmerTimesTracked | gui.py:720-724 | Swimmers are listed once each, in first-seen order, and no swimmer has an empty table |
| Relays.SaveRelayLegs | gui.py:1236-1282 | Given a roster read as name, year and leg, the loop produces exactly the rows `SavedLegs` gives. This is the corrected reading of the stored four-value entries (see Findings) |
| Relays.StoredRoster | hytek_parser.py:1442 | Each stored roster entry holds four values: name, year, leg and reaction time |
| Relays.SavedCountAsWritten | gui.py:1256-1265 | The loop as written raises exactly when a swimmer with a leg time has an entry of other than three values. Otherwise it saves one leg per timed swimmer |
| Relays.LeadOffTimed | gui.py:125-161 | With splits present, the first leg always has a time |
| Relays.StoredRosterRaises | gui.py:1236-1261 | For every stored roster with splits, the code as written raises on the lead-off swimmer and saves no leg |
| Relays.StoredRosterSaved | gui.py:1236-1282 | Reading each stored entry by its first three values, the save never raises. It writes one leg per timed swimmer, the lead-off first, with the stored name and year and the lead-off's leg time |
| Relays.SavedUpToLegs | gui.py:1256-1265 | One row is saved per swimmer whose leg time exists, in swimmer order. It carries that swimmer's name and year, the leg distance, the stroke of its position (back, breast, fly, free for medley; free otherwise) and `lead-off` for leg 1 or `relay` otherwise |
| Relays.SavedLegsTotal | gui.py:1244-1282 | The saved legs' seconds add up to the total of the computed leg times |
| Relays.SavedLegReadBack | gui.py:1256-1282 | A saved leg read back by `parse_swimmer_times` gives that swimmer, distance and stroke, and is lead-off eligible exactly for leg 1. Its time text converts back to its seconds |
| EventNames.ExtractStroke | gui.py:728-742 | The stroke found is mentioned in the lower-cased name, and no stroke earlier in the order free, back, breast, fly/butter is. None means no stroke word at all |
| EventNames.ExtractStrokeOfLeg | gui.py:728-742 | The stroke of a saved leg's event name is the stroke it was saved with |
| EventNames.LegStrokes | gui.py:1246-1251 | Four strokes: back, breast, fly, free when the name says Medley, else four free |
| EventNames.StripGenderPrefix | gui.py:1330-1336 | One leading `Women ` or, failing that, `Men ` is removed. Other names are unchanged |
| EventNames.StripEventSuffixes | gui.py:1338-1342 | The result is never longer and has no blanks at either end |
| EventNames.StripSuffixOf | gui.py:1338-1342 | A trailing ` (relay)` or ` (lead-off)` is removed |
| EventNames.StripSuffixPlain | gui.py:1338-1342 | A stripped name without either suffix is unchanged |
| EventNames.NormalizeGendered | gui.py:1344-1348 | Normalising a gendered name strips the gender and then the suffixes |
| EventNames.NormalizeLegEvent | gui.py:1344-1348 | A saved leg's event name normalises to `distance stroke` |
| EventNames.LegSuffixWords | gui.py:1261-1262 | A leg's event name says `(lead-off)` exactly for leg 1 and `(relay)` otherwise |
| EventNames.PatternFindsStroke | gui.py:1313-1322 | The filter pattern of each stroke except butterfly matches every event name `extract_stroke` assigns that stroke |
| EventNames.PatternFindsLeg | gui.py:1313-1322 | The filter pattern of a stroke matches every saved leg of that stroke |
| Relays.Best | gui.py:766-780 | A swimmer's best time is none exactly when no entry may be used, and is no slower than every usable entry |
| Relays.BestIsFirstLeast | gui.py:772-780 | The best is the first usable entry of least time, so strictly slower entries come before it |
| Relays.BestTime | gui.py:772-780 | The loop computes exactly `Best` |
| Relays.Candidates | gui.py:760-783 | Every candidate is an unused swimmer holding the key with a usable time, and carries its best |
| Relays.CandidatesComplete | gui.py:760-783 | Every unused swimmer holding the key with a usable time is a candidate |
| Relays.FindCandidates | gui.py:760-783 | The candidate loop computes exactly `Candidates` in table order |
| Relays.Fastest | gui.py:782-783 | The pick is a fastest candidate, and the first of them (a stable sort, then `[0]`) |
| Relays.ComputeSingleRelay | gui.py:744-787 | The lineup loop computes exactly `Lineup` over four free legs, or over the given strokes for a medley |
| Relays.Lineup | gui.py:749-787 | One leg per stroke |
| Relays.LineupGreedy | gui.py:749-787 | Each leg is picked greedily among the swimmers not placed on earlier legs |
| Relays.PickLegSpec | gui.py:766-787 | A leg keeps its stroke. It is empty, with no time or source, exactly when no unused swimmer is available. Otherwise its swimmer is available, its time and source are that swimmer's best, and that time is no slower than any available swimmer's best |
| Relays.LineupNoRepeat | gui.py:764-787 | No swimmer is placed on two legs |
| Relays.LeadOffEligible | gui.py:749-787 | A filled lead-off leg's time comes from an entry that is lead-off eligible |
| Relays.LeadOffNeverRelaySplit | gui.py:700-787 | With times indexed by `parse_swimmer_times`, the lead-off leg never uses a non-lead-off relay split |

## Left out

- Reading the PDF is not part of this model. This covers `pdfplumber`, `extract_columns`, `detect_layout`, `_find_gutter_positions` and `extract_meet_info`. The model takes a document as its sequence of column texts and a layout name.
- Building the pandas `DataFrame`, the `get_*` query helpers, `summarize_meet` and the command-line printing are not part of this model. Deduplication, the team fix and the sort are modelled on sequences of result records.
- The sort is modelled as stable. pandas does not promise a stable sort for `sort_values` with the default algorithm. It sorts on two columns with a missing place last.
- `float` is modelled only on decimal numerals, rounded to hundredths. The forms `inf`, `nan`, exponents and digit separators are out. The model rounds half up on the third decimal digit. `round(x, 2)` rounds the binary double instead, so a 5 in the third place can go either way: `round(2.675, 2)` is 2.67 where the model gives 268 hundredths. HY-TEK prints two decimals, where the two agree. Times, reaction times, points and diving scores are all integer hundredths.
- `parse_text_block` updates the caller's event map in place. The model returns the updated map instead, and the assembly passes it on to the next column.
- `Events.ParseEventHeader`: the stroke table knows seven names. `parse_event_header` passes any other descriptor word through unchanged, and so does the model.
- `is_header_line`'s skip table is modelled by a small pattern matcher over its fixed patterns, not by a general regular-expression engine.
- The result grammars work on the whitespace-separated words of a line. A regular expression's `\s+` and `\s*` between columns are treated as word boundaries.
- In the desktop tool, I/O is not part of this model. This covers the Qt widgets, SQLite, JSON decoding of stored splits, and CSV export. A stored roster is modelled only as its entries' lists of values (`Relays.Cell`), which is what the unpacking depends on. `Relays.SaveRelayLegs` returns the rows it would insert, with the columns computed from the relay, instead of executing `INSERT` statements. `save_relay_legs`'s count of saved rows is the length of that list.
- `Results.WithoutAge`: the model reads a line as words, so three or more blanks between the name and the seed collapse into one boundary. The source's pattern 5 (hytek_parser.py:802-812) can instead let its first `\s+` take one blank and `(.+?)` take a single blank as the school. `school.strip()[0]` at hytek_parser.py:817 then raises `IndexError`, e.g. on `8 Mora, Jesus   369.38 337.25 11`. Nothing in `parse_text_block` or `parse_hytek_pdf` catches it, so the whole parse fails. The model returns none for pattern 5 there and goes on to the dual-meet grammar. It does not model this crash.
- `Relays.SaveRelayLegs`: the method takes the roster as three-value swimmers (name, year, leg). The parser stores four values per entry (hytek_parser.py:1442, gui.py:1410), and `name, year, leg = swimmer` at gui.py:1261 raises on them. `Relays.SaveRelayLegsAsWritten` models that failure, and the Findings table records it.
- `Relays.ComputeSingleRelay`: strokes are a four-value type. The relay configurations only ever pass the four stroke names. The lineup is greedy leg by leg, as the code is, and is not proved globally optimal.
- `EventNames.PatternFindsStroke`: for butterfly, `extract_stroke` also accepts `butter` without `fly`, which the `%Fly%` pattern does not match. The lemma is stated for the other strokes, and `EventNames.PatternFindsLeg` covers butterfly legs, whose names say `Butterfly`.
- `Results.IndividualDual`: no lemma claims that a result is never both a DQ and a scratch. The main pattern sets `is_dq` when the name blob contains `DQ`, whatever the time column says. So a scratch whose name contains `DQ` is both, as `Results.DualScratchAndDq` shows. The model keeps that behaviour.
- Character classes are ASCII in the model. This covers `\d`, `[A-Z]`, `.lower()`, `.isupper()` and `.isdigit()` (`Text.IsDigit`, `Text.IsUpper`, `Text.Lower`). Python's versions also accept other Unicode digits and letters. `Text.IsSpace` follows Python's Unicode whitespace.
- `is_split_line` and `is_relay_swimmer_line` are modelled as classifiers (`Splits.IsSplitLine`, `Roster.IsRelaySwimmerLine`) with no separate lemma. The block parser's lemmas state what follows from either answer.

## Findings

| source | as written | input that shows it | evidently intended | confidence | as-written member | corrected member |
|---|---|---|---|---|---|---|
| hytek_parser.py:1159-1183 | A latent defect in a function with no caller. `parse_diving_result` accepts a score matching `[\d\.]+` and then calls `float` on it, which raises `ValueError` on a score with two points or a bare point. The block parser skips diving lines (hytek_parser.py:1253-1255, `BlockParser.DivingLinesIgnored`), so a parse of a document never reaches it | `1 Ng 1.2.3` passed to `parse_diving_result` directly | a malformed score gives a result without seconds. This is by analogy with `time_to_seconds`, which returns nothing for a malformed time. The code does not document it | not executed | Results.DivingRaisesOnDottedScore | Results.DivingCorrection |
| gui.py:1256-1261 | `save_relay_legs` unpacks each stored roster entry with `name, year, leg = swimmer`. The parser stores four values per entry (hytek_parser.py:1442, written at gui.py:1410, read back at gui.py:1238). So the unpacking raises `ValueError` on the first swimmer with a leg time, and the lead-off always has one when there are splits. The bare `except` at gui.py:1216-1217 swallows the error, so no relay leg is ever saved | any relay result with splits and a parsed roster, e.g. one swimmer `("Rothwell, Vivien", "JR", 1, None)` with splits `[2500]` | each entry is read by its first three values, and one leg is saved per swimmer with a leg time | not executed | Relays.StoredRosterRaises | Relays.StoredRosterSaved |
