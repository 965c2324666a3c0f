// The document-assembly tail of `parse_hytek_pdf`: the header pass, the result
// pass over every column, and the deduplicate / fix team names / sort pipeline
// that turns the collected results into the final table. Reading the PDF and
// cutting its pages into columns is outside the model: a document is given as
// the sequence of its column texts, in page order.

module Assembly {
  import opened Wrappers
  import opened Text
  import opened Events
  import opened Results
  import opened BlockParser

  // -------------------------------------------------------------------------
  // Pass 1: the event map
  // -------------------------------------------------------------------------

  /** Every line of every column, in reading order. */
  function AllLines(columns: seq<string>): (r: seq<string>)
    ensures columns == [] ==> r == []
  {
    if columns == [] then []
    else AllLines(columns[..|columns| - 1]) + SplitOn(columns[|columns| - 1], '\n')
  }

  /** The header a line announces, if any. */
  function HeaderOf(line: string): Option<EventHeader> {
    ParseEventHeader(Strip(line))
  }

  /** The map pass 1 builds: each header is written under its number, so a later one wins. */
  function Headers(lines: seq<string>): map<nat, EventHeader>
  {
    hide *;
    if lines == [] then map[]
    else
      var m := Headers(lines[..|lines| - 1]);
      match HeaderOf(lines[|lines| - 1])
      case Some(h) => m[h.number := h]
      case None => m
  }

  /** Whether line `i` announces event `n`. */
  predicate Announces(lines: seq<string>, i: nat, n: nat)
    requires i < |lines|
  {
    HeaderOf(lines[i]).Some? && HeaderOf(lines[i]).value.number == n
  }

  /** The last header announced for event `n`, looked up from the end. */
  function LastHeader(lines: seq<string>, n: nat): (r: Option<EventHeader>)
    ensures r.Some? ==> r.value.number == n
    decreases |lines|
  {
    hide *;
    if lines == [] then None
    else
      var h := HeaderOf(lines[|lines| - 1]);
      if h.Some? && h.value.number == n then h else LastHeader(lines[..|lines| - 1], n)
  }

  /** `LastHeader` finds the header of the last line announcing the event, and nothing when none does. */
  lemma {:induction false} LastHeaderIsLast(lines: seq<string>, n: nat)
    ensures LastHeader(lines, n).None? <==> forall i :: 0 <= i < |lines| ==> !Announces(lines, i, n)
    ensures LastHeader(lines, n).Some? ==>
              exists i :: 0 <= i < |lines| && HeaderOf(lines[i]) == LastHeader(lines, n)
                          && forall j :: i < j < |lines| ==> !Announces(lines, j, n)
    decreases |lines|
  {
    hide HeaderOf;
    if lines != [] {
      var k := |lines| - 1;
      var init := lines[..k];
      LastHeaderIsLast(init, n);
      forall i | 0 <= i < k ensures Announces(lines, i, n) == Announces(init, i, n) {
        assert lines[i] == init[i];
      }
      if Announces(lines, k, n) {
        assert LastHeader(lines, n) == HeaderOf(lines[k]);
      } else {
        assert LastHeader(lines, n) == LastHeader(init, n);
      }
    }
  }

  /** Pass 1 keeps, for every event number, the last header announcing it. */
  lemma {:induction false} HeadersLastWins(lines: seq<string>, n: nat)
    ensures n in Headers(lines) <==> LastHeader(lines, n).Some?
    ensures n in Headers(lines) ==> Headers(lines)[n] == LastHeader(lines, n).value
    decreases |lines|
  {
    hide HeaderOf;
    if lines != [] {
      HeadersLastWins(lines[..|lines| - 1], n);
    }
  }

  /** The map of pass 1 is keyed by event number. */
  lemma {:induction false} HeadersKeyed(lines: seq<string>)
    ensures Keyed(Headers(lines))
  {
    hide HeaderOf, Headers, LastHeader;
    forall n | n in Headers(lines) ensures Headers(lines)[n].number == n {
      HeadersLastWins(lines, n);
    }
  }

  /** Pass 1 appends one line at a time. */
  lemma HeadersSnoc(lines: seq<string>, line: string)
    ensures Headers(lines + [line]) ==
      match HeaderOf(line)
      case Some(h) => Headers(lines)[h.number := h]
      case None => Headers(lines)
  {
    hide HeaderOf;
    assert (lines + [line])[..|lines|] == lines;
  }

  lemma HeadersStart(columns: seq<string>)
    ensures Headers(AllLines(columns[..0])) == map[]
  {
    assert columns[..0] == [];
  }

  lemma HeaderOfIs(line: string)
    ensures HeaderOf(line) == ParseEventHeader(Strip(line))
  {
  }

  /** Reading one more column appends its lines. */
  lemma AllLinesSnoc(columns: seq<string>, c: nat)
    requires c < |columns|
    ensures AllLines(columns[..c + 1]) == AllLines(columns[..c]) + SplitOn(columns[c], '\n')
  {
    hide SplitOn;
    assert columns[..c + 1][..c] == columns[..c];
  }

  // -------------------------------------------------------------------------
  // Pass 2: the results of every column, with the event, the round and the
  // event map carried from one column to the next
  // -------------------------------------------------------------------------

  function Collect(columns: seq<string>, events: map<nat, EventHeader>, fmt: string)
    : (seq<SwimResult>, Option<EventHeader>, Option<string>, map<nat, EventHeader>)
  {
    hide *;
    if columns == [] then ([], None, None, events)
    else
      var (rs, e, r, m) := Collect(columns[..|columns| - 1], events, fmt);
      var (rs', e', r', m') := TextBlock(columns[|columns| - 1], m, e, fmt, r);
      (rs + rs', e', r', m')
  }

  /** Every collected result is well formed, and the shared event map stays keyed by number. */
  lemma {:induction false} CollectOk(columns: seq<string>, events: map<nat, EventHeader>, fmt: string)
    requires Keyed(events)
    ensures forall r <- Collect(columns, events, fmt).0 :: ResultOk(r)
    ensures Keyed(Collect(columns, events, fmt).3)
  {
    hide TextBlock, ResultOk, Keyed;
    if columns != [] {
      var (rs, e, r, m) := Collect(columns[..|columns| - 1], events, fmt);
      CollectOk(columns[..|columns| - 1], events, fmt);
      TextBlockResultsOk(columns[|columns| - 1], m, e, fmt, r);
    }
  }

  // -------------------------------------------------------------------------
  // Deduplication on (name, event name, finals time, round), keeping the first
  // -------------------------------------------------------------------------

  type Key = (string, string, string, Option<string>)

  function KeyOf(r: SwimResult): Key {
    (r.name, r.eventName, r.finalsTime, r.round)
  }

  function Keys(s: seq<SwimResult>): set<Key> {
    set r <- s :: KeyOf(r)
  }

  /** The position of the first row carrying key `k`. */
  function FirstIndex(s: seq<SwimResult>, k: Key): (i: nat)
    requires k in Keys(s)
    ensures i < |s| && KeyOf(s[i]) == k
    ensures forall j :: 0 <= j < i ==> KeyOf(s[j]) != k
  {
    if KeyOf(s[0]) == k then 0
    else
      assert k in Keys(s[1..]) by {
        var r :| r in s && KeyOf(r) == k;
        assert r in s[1..] by { assert r != s[0]; }
      }
      1 + FirstIndex(s[1..], k)
  }

  /** `drop_duplicates(keep='first')` on the four key columns. */
  function Dedup(s: seq<SwimResult>): seq<SwimResult> {
    if s == [] then []
    else
      var p := s[..|s| - 1];
      if KeyOf(s[|s| - 1]) in Keys(p) then Dedup(p) else Dedup(p) + [s[|s| - 1]]
  }

  predicate DistinctKeys(s: seq<SwimResult>) {
    forall i, j :: 0 <= i < j < |s| ==> KeyOf(s[i]) != KeyOf(s[j])
  }

  lemma KeysSnoc(p: seq<SwimResult>, x: SwimResult)
    ensures Keys(p + [x]) == Keys(p) + {KeyOf(x)}
  {
    assert forall r :: r in p + [x] <==> r in p || r == x;
  }

  lemma KeyIn(s: seq<SwimResult>, i: nat)
    requires i < |s|
    ensures KeyOf(s[i]) in Keys(s)
  {
    assert s[i] in s;
  }

  /** Appending a row leaves the first position of an earlier key where it was. */
  lemma FirstIndexSnoc(p: seq<SwimResult>, x: SwimResult, k: Key)
    requires k in Keys(p + [x])
    ensures k in Keys(p) ==> FirstIndex(p + [x], k) == FirstIndex(p, k)
    ensures k !in Keys(p) ==> FirstIndex(p + [x], k) == |p|
  {
    KeysSnoc(p, x);
    var i := FirstIndex(p + [x], k);
    if k in Keys(p) {
      var i' := FirstIndex(p, k);
      assert (p + [x])[i'] == p[i'];
    } else {
      assert forall j :: 0 <= j < |p| ==> KeyOf((p + [x])[j]) != k by {
        forall j | 0 <= j < |p| ensures KeyOf((p + [x])[j]) != k {
          assert (p + [x])[j] == p[j] && p[j] in p;
        }
      }
    }
  }

  /** Deduplication loses no key. */
  lemma {:induction false} DedupKeys(s: seq<SwimResult>)
    ensures Keys(Dedup(s)) == Keys(s)
  {
    if s != [] {
      var p, x := s[..|s| - 1], s[|s| - 1];
      assert s == p + [x];
      DedupKeys(p);
      KeysSnoc(p, x);
      KeysSnoc(Dedup(p), x);
    }
  }

  /** Deduplication leaves no two rows with the same key. */
  lemma {:induction false} DedupDistinct(s: seq<SwimResult>)
    ensures DistinctKeys(Dedup(s))
  {
    if s != [] {
      var p, x := s[..|s| - 1], s[|s| - 1];
      DedupDistinct(p);
      if KeyOf(x) !in Keys(p) {
        DedupKeys(p);
        var d := Dedup(p);
        forall i | 0 <= i < |d| ensures KeyOf(d[i]) != KeyOf(x) {
          assert d[i] in d;
        }
        forall i, j | 0 <= i < j < |d + [x]| ensures KeyOf((d + [x])[i]) != KeyOf((d + [x])[j]) {
          assert (d + [x])[i] == d[i];
        }
      }
    }
  }

  /**
   * Every kept row is the first row of the input with its key, and the kept rows
   * appear in the order of those first positions.
   */
  lemma {:induction false} DedupKeepsFirst(s: seq<SwimResult>)
    ensures Keys(Dedup(s)) == Keys(s)
    ensures forall i :: 0 <= i < |Dedup(s)| ==> Dedup(s)[i] == s[FirstIndex(s, KeyOf(Dedup(s)[i]))]
    ensures forall i, j :: 0 <= i < j < |Dedup(s)| ==>
              FirstIndex(s, KeyOf(Dedup(s)[i])) < FirstIndex(s, KeyOf(Dedup(s)[j]))
  {
    hide FirstIndex, Keys;
    DedupKeys(s);
    if s != [] {
      var p, x := s[..|s| - 1], s[|s| - 1];
      assert s == p + [x];
      DedupKeepsFirst(p);
      KeysSnoc(p, x);
      var d := Dedup(p);
      forall i | 0 <= i < |d| ensures KeyOf(d[i]) in Keys(p) && FirstIndex(s, KeyOf(d[i])) == FirstIndex(p, KeyOf(d[i])) {
        KeyIn(d, i);
        FirstIndexSnoc(p, x, KeyOf(d[i]));
      }
      if KeyOf(x) !in Keys(p) {
        FirstIndexSnoc(p, x, KeyOf(x));
        assert forall i :: 0 <= i < |d| ==> (d + [x])[i] == d[i];
      }
    }
  }

  // -------------------------------------------------------------------------
  // The team-name fix table
  // -------------------------------------------------------------------------

  /** The one team name known to come out cut short, and its full form. */
  const TruncatedTeam: string := "Georgia Institute of Technolog"
  const FullTeam: string := "Georgia Institute of Technology"

  /** `replace(_TEAM_FIXES)`: an exact match of a known truncation is replaced. */
  function FixTeam(t: string): (r: string)
    ensures r != TruncatedTeam
    ensures t != TruncatedTeam ==> r == t
    ensures t == TruncatedTeam ==> r == FullTeam
  {
    if t == TruncatedTeam then FullTeam else t
  }

  lemma FixTeamIdempotent(t: string)
    ensures FixTeam(FixTeam(t)) == FixTeam(t)
  {
  }

  function FixTeams(rs: seq<SwimResult>): (r: seq<SwimResult>)
    ensures |r| == |rs|
    ensures forall i :: 0 <= i < |rs| ==> r[i] == rs[i].(team := FixTeam(rs[i].team))
  {
    seq(|rs|, i requires 0 <= i < |rs| => rs[i].(team := FixTeam(rs[i].team)))
  }

  /** The fix changes no key. */
  lemma FixTeamsKeys(rs: seq<SwimResult>)
    ensures forall i :: 0 <= i < |rs| ==> KeyOf(FixTeams(rs)[i]) == KeyOf(rs[i])
    ensures Keys(FixTeams(rs)) == Keys(rs)
    ensures DistinctKeys(rs) ==> DistinctKeys(FixTeams(rs))
  {
    var f := FixTeams(rs);
    forall k | k in Keys(rs) ensures k in Keys(f) {
      var r :| r in rs && KeyOf(r) == k;
      var i :| 0 <= i < |rs| && rs[i] == r;
      assert f[i] in f;
    }
    forall k | k in Keys(f) ensures k in Keys(rs) {
      var r :| r in f && KeyOf(r) == k;
      var i :| 0 <= i < |f| && f[i] == r;
      assert rs[i] in rs;
    }
  }

  /** A team name plays no part in whether a result is well formed. */
  lemma ResultOkTeam(r: SwimResult, t: string)
    requires ResultOk(r)
    ensures ResultOk(r.(team := t))
  {
  }

  /** After the fix every row is still well formed and no team name is the truncated one. */
  lemma FixTeamsOk(rs: seq<SwimResult>)
    requires forall r <- rs :: ResultOk(r)
    ensures forall r <- FixTeams(rs) :: ResultOk(r) && r.team != TruncatedTeam
  {
    hide ResultOk;
    var f := FixTeams(rs);
    forall r <- f ensures ResultOk(r) && r.team != TruncatedTeam {
      var i :| 0 <= i < |f| && f[i] == r;
      assert rs[i] in rs;
      ResultOkTeam(rs[i], FixTeam(rs[i].team));
    }
  }

  // -------------------------------------------------------------------------
  // The stable sort by (event number, place), a missing place last
  // -------------------------------------------------------------------------

  predicate PlaceLe(p: Option<nat>, q: Option<nat>) {
    match (p, q)
    case (_, None) => true
    case (None, Some(_)) => false
    case (Some(x), Some(y)) => x <= y
  }

  /** `a` may come before `b` in the sorted table. */
  predicate Before(a: SwimResult, b: SwimResult) {
    a.eventNumber < b.eventNumber || (a.eventNumber == b.eventNumber && PlaceLe(a.place, b.place))
  }

  predicate Sorted(s: seq<SwimResult>) {
    forall i, j :: 0 <= i < j < |s| ==> Before(s[i], s[j])
  }

  /** Insert `x` after every row that may come before it. */
  function Insert(x: SwimResult, t: seq<SwimResult>): seq<SwimResult> {
    if t == [] then [x]
    else if Before(t[|t| - 1], x) then t + [x]
    else Insert(x, t[..|t| - 1]) + [t[|t| - 1]]
  }

  /** `sort_values(['event_number', 'place'])`, a stable sort. */
  function Sort(s: seq<SwimResult>): seq<SwimResult> {
    if s == [] then [] else Insert(s[|s| - 1], Sort(s[..|s| - 1]))
  }

  /** The rows whose sort key is `(n, p)`, in order. */
  function WithKey(s: seq<SwimResult>, n: nat, p: Option<nat>): seq<SwimResult> {
    if s == [] then []
    else
      var x := s[|s| - 1];
      WithKey(s[..|s| - 1], n, p) + (if x.eventNumber == n && x.place == p then [x] else [])
  }

  lemma {:induction false} InsertPermutes(x: SwimResult, t: seq<SwimResult>)
    ensures multiset(Insert(x, t)) == multiset(t) + multiset{x}
    decreases |t|
  {
    if t != [] {
      var u, l := t[..|t| - 1], t[|t| - 1];
      assert t == u + [l];
      if !Before(l, x) {
        InsertPermutes(x, u);
      }
    }
  }

  /** The last row that may come before `x` stays before it in a sorted table. */
  lemma SortedSnoc(t: seq<SwimResult>, x: SwimResult)
    requires Sorted(t)
    requires forall y <- t :: Before(y, x)
    ensures Sorted(t + [x])
  {
    forall i, j | 0 <= i < j < |t + [x]| ensures Before((t + [x])[i], (t + [x])[j]) {
      if j == |t| {
        assert (t + [x])[i] == t[i] && t[i] in t;
      } else {
        assert (t + [x])[i] == t[i] && (t + [x])[j] == t[j];
      }
    }
  }

  lemma {:induction false} InsertSorted(x: SwimResult, t: seq<SwimResult>)
    requires Sorted(t)
    ensures Sorted(Insert(x, t))
    decreases |t|
  {
    if t != [] {
      var u, l := t[..|t| - 1], t[|t| - 1];
      assert t == u + [l];
      if Before(l, x) {
        forall y <- t ensures Before(y, x) {
          var i :| 0 <= i < |t| && t[i] == y;
        }
        SortedSnoc(t, x);
      } else {
        assert Sorted(u);
        InsertSorted(x, u);
        InsertPermutes(x, u);
        var v := Insert(x, u);
        forall y <- v ensures Before(y, l) {
          assert y in multiset(v);
          if y != x {
            var i :| 0 <= i < |u| && u[i] == y;
          }
        }
        SortedSnoc(v, l);
      }
    }
  }

  lemma WithKeySnoc(s: seq<SwimResult>, x: SwimResult, n: nat, p: Option<nat>)
    ensures WithKey(s + [x], n, p) == WithKey(s, n, p) + (if x.eventNumber == n && x.place == p then [x] else [])
  {
    assert (s + [x])[..|s|] == s;
  }

  lemma {:induction false} InsertStable(x: SwimResult, t: seq<SwimResult>, n: nat, p: Option<nat>)
    ensures WithKey(Insert(x, t), n, p)
         == WithKey(t, n, p) + (if x.eventNumber == n && x.place == p then [x] else [])
    decreases |t|
  {
    hide WithKey;
    if t == [] {
      WithKeySnoc([], x, n, p);
      assert [] + [x] == [x];
    } else {
      var u, l := t[..|t| - 1], t[|t| - 1];
      assert t == u + [l];
      if Before(l, x) {
        WithKeySnoc(t, x, n, p);
      } else {
        InsertStable(x, u, n, p);
        WithKeySnoc(Insert(x, u), l, n, p);
        WithKeySnoc(u, l, n, p);
      }
    }
  }

  /** Sorting orders the rows by (event number, place) and is a permutation. */
  lemma {:induction false} SortFacts(s: seq<SwimResult>)
    ensures Sorted(Sort(s))
    ensures multiset(Sort(s)) == multiset(s)
  {
    if s != [] {
      var p := s[..|s| - 1];
      assert s == p + [s[|s| - 1]];
      SortFacts(p);
      InsertPermutes(s[|s| - 1], Sort(p));
      InsertSorted(s[|s| - 1], Sort(p));
    }
  }

  /** Sorting is stable: rows with equal sort keys keep their relative order. */
  lemma {:induction false} SortStable(s: seq<SwimResult>, n: nat, p: Option<nat>)
    ensures WithKey(Sort(s), n, p) == WithKey(s, n, p)
  {
    if s != [] {
      SortStable(s[..|s| - 1], n, p);
      InsertStable(s[|s| - 1], Sort(s[..|s| - 1]), n, p);
    }
  }

  /** Rows that are a permutation of each other carry the same keys. */
  lemma KeysPerm(a: seq<SwimResult>, b: seq<SwimResult>)
    requires multiset(a) == multiset(b)
    ensures forall r :: r in a <==> r in b
    ensures Keys(a) == Keys(b)
  {
    forall r ensures r in a <==> r in b {
      assert r in a <==> r in multiset(a);
      assert r in b <==> r in multiset(b);
    }
  }

  /** In rows with distinct keys, the last row's key is not among the others. */
  lemma LastKeyFresh(t: seq<SwimResult>)
    requires t != [] && DistinctKeys(t)
    ensures DistinctKeys(t[..|t| - 1]) && KeyOf(t[|t| - 1]) !in Keys(t[..|t| - 1])
  {
    var u := t[..|t| - 1];
    forall r <- u ensures KeyOf(r) != KeyOf(t[|t| - 1]) {
      var i :| 0 <= i < |u| && u[i] == r;
      assert t[i] == u[i];
    }
  }

  lemma DistinctSnoc(t: seq<SwimResult>, x: SwimResult)
    requires DistinctKeys(t) && KeyOf(x) !in Keys(t)
    ensures DistinctKeys(t + [x])
  {
    forall i, j | 0 <= i < j < |t + [x]| ensures KeyOf((t + [x])[i]) != KeyOf((t + [x])[j]) {
      KeyIn(t, i);
      assert (t + [x])[i] == t[i];
    }
  }

  lemma {:induction false} InsertDistinct(x: SwimResult, t: seq<SwimResult>)
    requires DistinctKeys(t) && KeyOf(x) !in Keys(t)
    ensures DistinctKeys(Insert(x, t))
    decreases |t|
  {
    if t == [] {
    } else {
      var u, l := t[..|t| - 1], t[|t| - 1];
      assert t == u + [l];
      KeysSnoc(u, l);
      if Before(l, x) {
        DistinctSnoc(t, x);
      } else {
        assert DistinctKeys(u);
        InsertDistinct(x, u);
        InsertPermutes(x, u);
        var w := Insert(x, u);
        KeysPerm(w, u + [x]);
        KeysSnoc(u, x);
        LastKeyFresh(t);
        DistinctSnoc(w, l);
      }
    }
  }

  /** Sorting keeps the keys and their distinctness. */
  lemma {:induction false} SortKeys(s: seq<SwimResult>)
    ensures Keys(Sort(s)) == Keys(s)
    ensures DistinctKeys(s) ==> DistinctKeys(Sort(s))
  {
    SortFacts(s);
    KeysPerm(Sort(s), s);
    if s != [] && DistinctKeys(s) {
      SortDistinct(s);
    }
  }

  lemma {:induction false} SortDistinct(s: seq<SwimResult>)
    requires DistinctKeys(s)
    ensures DistinctKeys(Sort(s))
  {
    hide Insert, DistinctKeys;
    if s != [] {
      var p, x := s[..|s| - 1], s[|s| - 1];
      LastKeyFresh(s);
      SortDistinct(p);
      SortFacts(p);
      KeysPerm(Sort(p), p);
      InsertDistinct(x, Sort(p));
    }
  }

  // -------------------------------------------------------------------------
  // The whole document
  // -------------------------------------------------------------------------

  /** The table `parse_hytek_pdf` returns for a document given as its column texts. */
  function Assemble(columns: seq<string>, fmt: string): seq<SwimResult> {
    var all := Collect(columns, Headers(AllLines(columns)), fmt).0;
    if all == [] then [] else Sort(FixTeams(Dedup(all)))
  }

  /**
   * The table is ordered by (event number, place) with a missing place last,
   * holds exactly one row per (name, event name, finals time, round) found in
   * the document, keeps every row well formed and carries no truncated team name.
   */
  lemma AssembleProperties(columns: seq<string>, fmt: string)
    ensures var rows := Assemble(columns, fmt);
      Sorted(rows) && DistinctKeys(rows)
      && Keys(rows) == Keys(Collect(columns, Headers(AllLines(columns)), fmt).0)
      && forall r <- rows :: ResultOk(r) && r.team != TruncatedTeam
  {
    hide Collect, Headers, AllLines, ResultOk, Sort, FixTeams, Dedup;
    var events := Headers(AllLines(columns));
    var all := Collect(columns, events, fmt).0;
    HeadersKeyed(AllLines(columns));
    CollectOk(columns, events, fmt);
    if all != [] {
      var d := Dedup(all);
      DedupKeys(all);
      DedupDistinct(all);
      assert forall r <- d :: ResultOk(r) by {
        DedupKeepsFirst(all);
        forall r <- d ensures ResultOk(r) {
          var i :| 0 <= i < |d| && d[i] == r;
          assert all[FirstIndex(all, KeyOf(d[i]))] in all;
        }
      }
      FixTeamsKeys(d);
      FixTeamsOk(d);
      SortFacts(FixTeams(d));
      SortKeys(FixTeams(d));
      KeysPerm(Sort(FixTeams(d)), FixTeams(d));
    } else {
      assert Keys(all) == {};
    }
  }

  /** Pass 1 of `parse_hytek_pdf`: every header line of every column, written into the map. */
  method CollectHeaders(columns: seq<string>) returns (eventMap: map<nat, EventHeader>)
    ensures eventMap == Headers(AllLines(columns))
  {
    hide ParseEventHeader, Strip, SplitOn, Headers, AllLines, HeaderOf;
    eventMap := map[];
    HeadersStart(columns);
    var c := 0;
    while c < |columns|
      invariant c <= |columns|
      invariant eventMap == Headers(AllLines(columns[..c]))
    {
      var lines := SplitOn(columns[c], '\n');
      ghost var before := AllLines(columns[..c]);
      assert before + lines[..0] == before;
      var j := 0;
      while j < |lines|
        invariant j <= |lines|
        invariant eventMap == Headers(before + lines[..j])
      {
        var ei := ParseEventHeader(Strip(lines[j]));
        if ei.Some? {
          eventMap := eventMap[ei.value.number := ei.value];
        }
        HeadersSnoc(before + lines[..j], lines[j]);
        HeaderOfIs(lines[j]);
        assert before + lines[..j + 1] == before + lines[..j] + [lines[j]];
        j := j + 1;
      }
      AllLinesSnoc(columns, c);
      assert lines[..j] == lines;
      c := c + 1;
    }
    assert columns[..c] == columns;
  }

  /** Pass 2 of `parse_hytek_pdf`: every column parsed in turn, its results appended. */
  method CollectResults(columns: seq<string>, eventMap: map<nat, EventHeader>, fmt: string)
    returns (all: seq<SwimResult>, lastEvent: Option<EventHeader>, lastRound: Option<string>,
             events: map<nat, EventHeader>)
    ensures (all, lastEvent, lastRound, events) == Collect(columns, eventMap, fmt)
  {
    hide TextBlock;
    all, lastEvent, lastRound, events := [], None, None, eventMap;
    var c := 0;
    while c < |columns|
      invariant c <= |columns|
      invariant (all, lastEvent, lastRound, events) == Collect(columns[..c], eventMap, fmt)
    {
      var results;
      results, lastEvent, lastRound, events := ParseTextBlock(columns[c], events, lastEvent, fmt, lastRound);
      assert columns[..c + 1][..c] == columns[..c];
      all := all + results;
      c := c + 1;
    }
    assert columns[..c] == columns;
  }

  /**
   * `parse_hytek_pdf` after the PDF has been cut into columns: the two passes,
   * then the collected results deduplicated, their team names fixed and the
   * whole sorted; no results give the empty table.
   */
  method ParseHytekPdf(columns: seq<string>, fmt: string) returns (rows: seq<SwimResult>)
    ensures rows == Assemble(columns, fmt)
  {
    hide Headers, AllLines, Collect, Sort, FixTeams, Dedup;
    var eventMap := CollectHeaders(columns);
    var all, _, _, _ := CollectResults(columns, eventMap, fmt);
    if all == [] {
      return [];
    }
    rows := Sort(FixTeams(Dedup(all)));
  }
}
