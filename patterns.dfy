/**
 * `Regex.Matches` for the three fixed patterns of ServerWatcher.cs.
 *
 * The engine part (`MatchAt`, `Matches`) follows the regex semantics:
 * positions are tried from left to right, a match is searched again from
 * its end, `.` never matches a line feed, `*` is greedy and backtracks,
 * an alternation tries its left branch first. Each pattern is then given
 * a second, plain description over lines or occurrences, and the two are
 * proved equal.
 */
module Patterns {
  import opened Wrappers
  import opened Strings

  datatype Pattern =
    | NextTurnDue  // Next turn due: (.*)\n
    | TurnNumber   // Turn number (\d*)
    | RaceRow      // <tr><td>(.*)</td><td>&nbsp;&nbsp;&nbsp;&nbsp;</td><td>(2h file received|Waiting for 2h file)</td></tr>\n

  const DueMarker := "Next turn due: "
  const TurnMarker := "Turn number "
  const RowOpen := "<tr><td>"
  const Received := "2h file received"
  const Waiting := "Waiting for 2h file"

  /** What follows the name group of a race row with status `status`, up to the line feed. */
  function RowSuffix(status: string): string {
    "</td><td>&nbsp;&nbsp;&nbsp;&nbsp;</td><td>" + status + "</td></tr>"
  }

  /** One match: where it ends and the values of groups 1, 2, ... (group 0 is not kept). */
  datatype Match = Match(end: nat, groups: seq<string>)

  /** `Groups.Count` of every match of the pattern, less one for group 0. */
  function GroupCount(pat: Pattern): nat {
    if pat.RaceRow? then 2 else 1
  }

  /** The part of the race-row pattern after the name group, tried at position `k`. */
  function RowRestAt(s: string, k: nat): (r: Option<string>)
    requires k <= |s|
    ensures r.Some? ==> (r.value == Received || r.value == Waiting) && k + |RowSuffix(r.value)| < |s|
  {
    if LiteralAt(s, k, RowSuffix(Received) + "\n") then Some(Received)
    else if LiteralAt(s, k, RowSuffix(Waiting) + "\n") then Some(Waiting)
    else None
  }

  /**
   * Backtracking of the greedy name group `(.*)` that starts at `lo`:
   * the end `k` of the group is tried from its largest value downwards.
   */
  function RowBacktrack(s: string, lo: nat, k: nat): (r: Option<(nat, string)>)
    requires lo <= k <= |s|
    ensures r.Some? ==> lo <= r.value.0 <= k && RowRestAt(s, r.value.0) == Some(r.value.1)
    decreases k - lo
  {
    match RowRestAt(s, k)
    case Some(status) => Some((k, status))
    case None => if k == lo then None else RowBacktrack(s, lo, k - 1)
  }

  /** The match of `Next turn due: (.*)\n` that starts at position `p` of `s`, if there is one. */
  function DueAt(s: string, p: nat): (r: Option<Match>)
    requires p <= |s|
    ensures r.Some? ==> p < r.value.end <= |s| && |r.value.groups| == 1
  {
    if !LiteralAt(s, p, DueMarker) then None
    else (
      match NextLineFeed(s, p + |DueMarker|)
      case None => None
      case Some(q) => Some(Match(q + 1, [s[p + |DueMarker|..q]])))
  }

  /** The match of `Turn number (\d*)` that starts at position `p` of `s`, if there is one. */
  function TurnAt(s: string, p: nat): (r: Option<Match>)
    requires p <= |s|
    ensures r.Some? ==> p < r.value.end <= |s| && |r.value.groups| == 1
  {
    if !LiteralAt(s, p, TurnMarker) then None
    else
      var e := DigitRunEnd(s, p + |TurnMarker|);
      Some(Match(e, [s[p + |TurnMarker|..e]]))
  }

  /** The match of the race-row pattern that starts at position `p` of `s`, if there is one. */
  function RowAt(s: string, p: nat): (r: Option<Match>)
    requires p <= |s|
    ensures r.Some? ==> p < r.value.end <= |s| && |r.value.groups| == 2
  {
    if !LiteralAt(s, p, RowOpen) then None
    else (
      match NextLineFeed(s, p + |RowOpen|)
      case None => None
      case Some(q) => (
        match RowBacktrack(s, p + |RowOpen|, q)
        case None => None
        case Some((k, status)) =>
          Some(Match(k + |RowSuffix(status)| + 1, [s[p + |RowOpen|..k], status]))))
  }

  /**
   * A table of the match that starts at each position of a text, if any:
   * every match ends further on, within the table, and has `n` groups.
   */
  predicate Scannable(at: seq<Option<Match>>, n: nat) {
    forall k :: 0 <= k < |at| && at[k].Some? ==> k < at[k].value.end < |at| && |at[k].value.groups| == n
  }

  /**
   * The groups of every match found by a scan of the table `at` from `p`,
   * the order of `Regex.Matches`: positions are tried from left to right,
   * and after a match the scan goes on from its end.
   */
  function Scan(at: seq<Option<Match>>, n: nat, p: nat): (r: seq<seq<string>>)
    requires Scannable(at, n) && p < |at|
    ensures forall k :: 0 <= k < |r| ==> |r[k]| == n
    decreases |at| - p
  {
    match at[p]
    case Some(m) => [m.groups] + Scan(at, n, m.end)
    case None => if p == |at| - 1 then [] else Scan(at, n, p + 1)
  }

  /** The matches of `Next turn due: (.*)\n` that start at the positions 0..|s| of `s`. */
  function DueTable(s: string): (at: seq<Option<Match>>)
    ensures |at| == |s| + 1 && Scannable(at, 1)
  {
    seq(|s| + 1, k requires 0 <= k <= |s| => DueAt(s, k))
  }

  /** The matches of `Turn number (\d*)` that start at the positions 0..|s| of `s`. */
  function TurnTable(s: string): (at: seq<Option<Match>>)
    ensures |at| == |s| + 1 && Scannable(at, 1)
  {
    seq(|s| + 1, k requires 0 <= k <= |s| => TurnAt(s, k))
  }

  /** The matches of the race-row pattern that start at the positions 0..|s| of `s`. */
  function RowTable(s: string): (at: seq<Option<Match>>)
    ensures |at| == |s| + 1 && Scannable(at, 2)
  {
    seq(|s| + 1, k requires 0 <= k <= |s| => RowAt(s, k))
  }

  function MatchTable(pat: Pattern, s: string): (at: seq<Option<Match>>)
    ensures |at| == |s| + 1 && Scannable(at, GroupCount(pat))
  {
    match pat
    case NextTurnDue => DueTable(s)
    case TurnNumber => TurnTable(s)
    case RaceRow => RowTable(s)
  }

  /**
   * The groups of every match of `pat` in `s` found by a scan from `p`.
   * Every match has the pattern's groups, so the `Groups.Count` tests in
   * ServerWatcher.cs always pass.
   */
  function Matches(pat: Pattern, s: string, p: nat): (r: seq<seq<string>>)
    requires p <= |s|
    ensures forall k :: 0 <= k < |r| ==> |r[k]| == GroupCount(pat)
  {
    Scan(MatchTable(pat, s), GroupCount(pat), p)
  }

  /** The matches of `pat` in the whole text. */
  function AllMatches(pat: Pattern, s: string): (r: seq<seq<string>>)
    ensures forall k :: 0 <= k < |r| ==> |r[k]| == GroupCount(pat)
  {
    Matches(pat, s, 0)
  }

  /** A scan that finds a match goes on from its end. */
  lemma ScanHit(at: seq<Option<Match>>, n: nat, p: nat, m: Match)
    requires Scannable(at, n) && p < |at| && at[p] == Some(m)
    ensures m.end < |at| && Scan(at, n, p) == [m.groups] + Scan(at, n, m.end)
  {
  }

  /** A scan passes over positions where nothing matches. */
  lemma {:induction false} ScanSkip(at: seq<Option<Match>>, n: nat, i: nat, j: nat)
    requires Scannable(at, n) && i <= j < |at|
    requires forall p :: i <= p < j ==> at[p].None?
    ensures Scan(at, n, i) == Scan(at, n, j)
    decreases j - i
  {
    if i < j {
      ScanSkip(at, n, i + 1, j);
    }
  }

  /** A scan finds nothing where nothing matches up to the end. */
  lemma ScanNone(at: seq<Option<Match>>, n: nat, i: nat)
    requires Scannable(at, n) && i < |at|
    requires forall p :: i <= p < |at| ==> at[p].None?
    ensures Scan(at, n, i) == []
  {
    ScanSkip(at, n, i, |at| - 1);
  }

  /**
   * The scan through a line that ends at `q`: it finds the line's one
   * match `first`, if there is one, and goes on after the line feed.
   */
  lemma LineScan(at: seq<Option<Match>>, n: nat, i: nat, q: nat, first: Option<(nat, seq<string>)>)
    requires Scannable(at, n) && i <= q && q + 1 < |at|
    requires forall p :: i <= p <= q && (first.None? || p < first.value.0) ==> at[p].None?
    requires first.Some? ==> i <= first.value.0 <= q && at[first.value.0] == Some(Match(q + 1, first.value.1))
    ensures Scan(at, n, i) == (match first case None => [] case Some(h) => [h.1]) + Scan(at, n, q + 1)
  {
    match first
    case None =>
      ScanSkip(at, n, i, q + 1);
    case Some((p, g)) =>
      ScanSkip(at, n, i, p);
      ScanHit(at, n, p, Match(q + 1, g));
  }

  /**
   * The scan from the line that starts at `a`: it finds what `line` says the
   * line captures and goes on after the line feed; after the last line feed
   * it finds nothing.
   */
  predicate LineStep(at: seq<Option<Match>>, n: nat, s: string, a: nat, line: string -> Option<seq<string>>)
    requires Scannable(at, n) && |at| == |s| + 1 && a <= |s|
  {
    match NextLineFeed(s, a)
    case None => Scan(at, n, a) == []
    case Some(q) => Scan(at, n, a) == (match line(s[a..q]) case None => [] case Some(g) => [g]) + Scan(at, n, q + 1)
  }

  /** A scan that proceeds line by line finds the captures of the lines, in order. */
  lemma {:induction false} ScanByLines(at: seq<Option<Match>>, n: nat, s: string, i: nat, line: string -> Option<seq<string>>)
    requires Scannable(at, n) && |at| == |s| + 1 && i <= |s|
    requires forall a :: i <= a <= |s| ==> LineStep(at, n, s, a, line)
    ensures Scan(at, n, i) == OnLines(line, LinesFrom(s, i))
    decreases |s| - i
  {
    assert LineStep(at, n, s, i, line);
    match NextLineFeed(s, i)
    case None =>
    case Some(q) =>
      ScanByLines(at, n, s, q + 1, line);
      assert LinesFrom(s, i)[1..] == LinesFrom(s, q + 1);
  }

  // ---------------------------------------------------------------------
  // The plain descriptions.

  /** What `Next turn due: (.*)\n` captures on one line: the rest of it after the marker's first occurrence. */
  function DueOnLine(line: string): Option<seq<string>> {
    match After(line, DueMarker)
    case None => None
    case Some(rest) => Some([rest])
  }

  /** The status whose fixed suffix ends `line`, trying "2h file received" first. */
  function RowStatus(line: string): (r: Option<string>)
    ensures r.Some? ==> (r.value == Received || r.value == Waiting) && |RowSuffix(r.value)| <= |line|
  {
    var r := RowSuffix(Received);
    var w := RowSuffix(Waiting);
    if EndsWith(line, r) then Some(Received)
    else if EndsWith(line, w) then Some(Waiting)
    else None
  }

  /**
   * What the race-row pattern captures on one line: the line ends with the
   * fixed suffix, and the name is what lies between the first `<tr><td>`
   * and that suffix.
   */
  function RowOnLine(line: string): Option<seq<string>> {
    match RowStatus(line)
    case None => None
    case Some(status) => (
      match After(line[..|line| - |RowSuffix(status)|], RowOpen)
      case None => None
      case Some(name) => Some([name, status]))
  }

  /** The captures that `line` gives on each of `lines`, in order, where it gives some. */
  function OnLines(line: string -> Option<seq<string>>, lines: seq<string>): seq<seq<string>> {
    if lines == [] then []
    else
      (match line(lines[0]) case None => [] case Some(g) => [g]) + OnLines(line, lines[1..])
  }

  /** Every capture that `OnLines` gives comes from one of the lines. */
  lemma {:induction false} OnLinesFrom(line: string -> Option<seq<string>>, lines: seq<string>, k: nat)
    requires k < |OnLines(line, lines)|
    ensures exists j :: 0 <= j < |lines| && line(lines[j]) == Some(OnLines(line, lines)[k])
  {
    var tail := OnLines(line, lines[1..]);
    if line(lines[0]).Some? && k == 0 {
      assert line(lines[0]) == Some(OnLines(line, lines)[0]);
    } else {
      var k' := if line(lines[0]).Some? then k - 1 else k;
      assert OnLines(line, lines)[k] == tail[k'];
      OnLinesFrom(line, lines[1..], k');
      var j :| 0 <= j < |lines| - 1 && line(lines[1..][j]) == Some(tail[k']);
      assert lines[1..][j] == lines[j + 1];
    }
  }

  /** The digit run that follows an occurrence of `Turn number ` at `p`, possibly empty. */
  function DigitsAfter(s: string, p: nat): (ds: string)
    requires p + |TurnMarker| <= |s|
    ensures AllDigits(ds)
  {
    s[p + |TurnMarker|..DigitRunEnd(s, p + |TurnMarker|)]
  }

  /** The digit runs after each of the positions `ps` of `Turn number `, one capture each. */
  function DigitRuns(s: string, ps: seq<nat>): (r: seq<seq<string>>)
    requires forall k :: 0 <= k < |ps| ==> ps[k] + |TurnMarker| <= |s|
    ensures |r| == |ps|
    ensures forall k :: 0 <= k < |r| ==> r[k] == [DigitsAfter(s, ps[k])]
  {
    if ps == [] then [] else [[DigitsAfter(s, ps[0])]] + DigitRuns(s, ps[1..])
  }

  // ---------------------------------------------------------------------
  // The equality proofs.

  lemma MarkersHaveNoLineFeed()
    ensures '\n' !in DueMarker && '\n' !in RowOpen && '\n' !in TurnMarker
    ensures '\n' !in RowSuffix(Received) && '\n' !in RowSuffix(Waiting)
  {
    var mid, close := "</td><td>&nbsp;&nbsp;&nbsp;&nbsp;</td><td>", "</td></tr>";
    assert '\n' !in mid && '\n' !in close && '\n' !in Received && '\n' !in Waiting;
    assert RowSuffix(Received) == mid + Received + close;
    assert RowSuffix(Waiting) == mid + Waiting + close;
  }

  /** Within the line that starts at `i` and ends at `q`, occurrences of a marker are the line's own. */
  lemma LineOccurrence(s: string, i: nat, q: nat, p: nat, m: string)
    requires i <= |s| && NextLineFeed(s, i) == Some(q)
    requires '\n' !in m && i <= p <= q
    ensures OccursAt(s, p, m) <==> OccursAt(s[i..q], p - i, m)
  {
    if OccursAt(s, p, m) {
      OccursWithinLine(s, i, q, p, m);
    }
    OccursInSlice(s, i, q, p, m);
  }

  /** `Next turn due: (.*)\n` needs a line feed: without one, it matches nowhere. */
  lemma DueNoLineFeed(s: string, i: nat)
    requires i <= |s| && NextLineFeed(s, i).None?
    ensures forall p :: i <= p <= |s| ==> DueAt(s, p).None?
  {
    forall p | i <= p <= |s| ensures DueAt(s, p).None? {
      if LiteralAt(s, p, DueMarker) {
        NoLineFeedLater(s, i, p + |DueMarker|);
      }
    }
  }

  /** The race-row pattern needs a line feed: without one, it matches nowhere. */
  lemma RowNoLineFeed(s: string, i: nat)
    requires i <= |s| && NextLineFeed(s, i).None?
    ensures forall p :: i <= p <= |s| ==> RowAt(s, p).None?
  {
    forall p | i <= p <= |s| ensures RowAt(s, p).None? {
      if LiteralAt(s, p, RowOpen) {
        NoLineFeedLater(s, i, p + |RowOpen|);
      }
    }
  }


  /** On a line, the marker compared character by character is the marker occurring in the line. */
  lemma DueMarkerOnLine(s: string, i: nat, q: nat, p: nat)
    requires i <= |s| && NextLineFeed(s, i) == Some(q) && i <= p <= q
    ensures LiteralAt(s, p, DueMarker) <==> OccursAt(s[i..q], p - i, DueMarker)
  {
    MarkersHaveNoLineFeed();
    LiteralAtOccurs(s, p, DueMarker);
    LineOccurrence(s, i, q, p, DueMarker);
  }

  /** At a position of a line, `Next turn due: (.*)\n` matches exactly where the marker starts, up to the end of the line. */
  lemma DueAtOnLine(s: string, i: nat, q: nat, p: nat)
    requires i <= |s| && NextLineFeed(s, i) == Some(q) && i <= p <= q
    ensures !LiteralAt(s, p, DueMarker) ==> DueAt(s, p).None?
    ensures LiteralAt(s, p, DueMarker) ==>
      p + |DueMarker| <= q && DueAt(s, p) == Some(Match(q + 1, [s[p + |DueMarker|..q]]))
  {
    if LiteralAt(s, p, DueMarker) {
      MarkersHaveNoLineFeed();
      LiteralAtOccurs(s, p, DueMarker);
      OccursWithinLine(s, i, q, p, DueMarker);
      SameLine(s, i, q, p + |DueMarker|);
    }
  }

  /** At a position of a line, `Next turn due: (.*)\n` matches exactly where the line holds the marker. */
  lemma DueMatchOnLine(s: string, i: nat, q: nat, p: nat)
    requires i <= |s| && NextLineFeed(s, i) == Some(q) && i <= p <= q
    ensures DueAt(s, p) ==
      if OccursAt(s[i..q], p - i, DueMarker) then Some(Match(q + 1, [s[p + |DueMarker|..q]])) else None
  {
    DueAtOnLine(s, i, q, p);
    DueMarkerOnLine(s, i, q, p);
  }

  /** A position of the line before the first occurrence of the marker starts no match. */
  lemma DueSkipToFirst(s: string, i: nat, q: nat, j: nat)
    requires i <= |s| && NextLineFeed(s, i) == Some(q) && i <= j <= q + 1
    requires forall k: nat :: k < j - i ==> !OccursAt(s[i..q], k, DueMarker)
    ensures Scan(DueTable(s), 1, i) == Scan(DueTable(s), 1, j)
  {
    forall p | i <= p < j ensures DueTable(s)[p].None? {
      DueMatchOnLine(s, i, q, p);
    }
    ScanSkip(DueTable(s), 1, i, j);
  }

  /** A line holding the marker starts one match, at the marker's first occurrence. */
  lemma DueLineFound(s: string, i: nat, q: nat, f: nat)
    requires i <= |s| && NextLineFeed(s, i) == Some(q)
    requires FirstOccurrence(s[i..q], DueMarker) == Some(f)
    ensures Scan(DueTable(s), 1, i) == [[s[i..q][f + |DueMarker|..]]] + Scan(DueTable(s), 1, q + 1)
  {
    var p := i + f;
    DueSkipToFirst(s, i, q, p);
    DueMatchOnLine(s, i, q, p);
    ScanHit(DueTable(s), 1, p, Match(q + 1, [s[p + |DueMarker|..q]]));
    assert s[i..q][f + |DueMarker|..] == s[p + |DueMarker|..q];
  }

  /** On a line, `Next turn due: (.*)\n` matches once, at the marker's first occurrence, if the marker occurs. */
  lemma DueLine(s: string, i: nat, q: nat)
    requires i <= |s| && NextLineFeed(s, i) == Some(q)
    ensures Scan(DueTable(s), 1, i) ==
      (match DueOnLine(s[i..q]) case None => [] case Some(g) => [g]) + Scan(DueTable(s), 1, q + 1)
  {
    match FirstOccurrence(s[i..q], DueMarker)
    case None =>
      DueSkipToFirst(s, i, q, q + 1);
    case Some(f) =>
      DueLineFound(s, i, q, f);
  }

  /** The scan for `Next turn due: (.*)\n` proceeds line by line. */
  lemma DueSteps(s: string)
    ensures forall a :: 0 <= a <= |s| ==> LineStep(DueTable(s), 1, s, a, DueOnLine)
  {
    forall a | 0 <= a <= |s| ensures LineStep(DueTable(s), 1, s, a, DueOnLine) {
      match NextLineFeed(s, a)
      case None =>
        DueNoLineFeed(s, a);
        ScanNone(DueTable(s), 1, a);
      case Some(q) =>
        DueLine(s, a, q);
    }
  }

  // Race rows.

  /** A fixed text without line feeds followed by one matches where it ends the line. */
  lemma LineEndOccurs(s: string, lo: nat, q: nat, k: nat, x: string)
    requires lo <= |s| && NextLineFeed(s, lo) == Some(q) && lo <= k <= q && '\n' !in x
    ensures LiteralAt(s, k, x + "\n") <==> k + |x| == q && LiteralAt(s, k, x)
  {
    LiteralAtOccurs(s, k, x + "\n");
    LiteralAtOccurs(s, k, x);
    if OccursAt(s, k, x + "\n") {
      assert s[k + |x|] == (x + "\n")[|x|] == '\n';
      assert s[k..k + |x|] == s[k..k + |x| + 1][..|x|] == x;
      OccursWithinLine(s, lo, q, k, x);
      if k + |x| < q {
        NoLineFeedBefore(s, lo, k + |x|);
      }
    }
    if k + |x| == q && OccursAt(s, k, x) {
      assert s[k..k + |x| + 1] == s[k..k + |x|] + [s[q]];
    }
  }

  /** On a line ending at `q`, the part after the name group matches only where a fixed suffix ends the line. */
  lemma RowRestOnLine(s: string, lo: nat, q: nat, k: nat)
    requires lo <= |s| && NextLineFeed(s, lo) == Some(q) && lo <= k <= q
    ensures RowRestAt(s, k) ==
      if k + |RowSuffix(Received)| == q && LiteralAt(s, k, RowSuffix(Received)) then Some(Received)
      else if k + |RowSuffix(Waiting)| == q && LiteralAt(s, k, RowSuffix(Waiting)) then Some(Waiting)
      else None
  {
    MarkersHaveNoLineFeed();
    LineEndOccurs(s, lo, q, k, RowSuffix(Received));
    LineEndOccurs(s, lo, q, k, RowSuffix(Waiting));
  }

  /** Backtracking passes over the ends of the name group where the rest does not match. */
  lemma {:induction false} RowBacktrackSkip(s: string, lo: nat, a: nat, k: nat)
    requires lo <= a <= k <= |s|
    requires forall j :: a < j <= k ==> RowRestAt(s, j).None?
    ensures RowBacktrack(s, lo, k) == RowBacktrack(s, lo, a)
    decreases k - a
  {
    if a < k {
      RowBacktrackSkip(s, lo, a, k - 1);
    }
  }

  /** Backtracking fails where the rest matches at no end of the name group. */
  lemma RowBacktrackFails(s: string, lo: nat, k: nat)
    requires lo <= k <= |s|
    requires forall j :: lo <= j <= k ==> RowRestAt(s, j).None?
    ensures RowBacktrack(s, lo, k).None?
  {
    RowBacktrackSkip(s, lo, lo, k);
  }

  /** On a line, the rest of the race-row pattern matches at no other end of the name group than the two suffix starts. */
  lemma RowRestOnlyAt(s: string, lo: nat, q: nat, a: nat, k: nat)
    requires lo <= |s| && NextLineFeed(s, lo) == Some(q) && lo <= a <= k <= q
    requires q < a + |RowSuffix(Received)| || k + |RowSuffix(Received)| < q
    requires q < a + |RowSuffix(Waiting)| || k + |RowSuffix(Waiting)| < q
    ensures forall j :: a <= j <= k ==> RowRestAt(s, j).None?
  {
    forall j | a <= j <= k ensures RowRestAt(s, j).None? {
      RowRestOnLine(s, lo, q, j);
    }
  }

  /** The backtracking of the name group on a line finds the suffix that ends the line, the longer name first. */
  lemma RowBacktrackOnLine(s: string, lo: nat, q: nat)
    requires lo <= |s| && NextLineFeed(s, lo) == Some(q) && lo <= q
    ensures var r, w := RowSuffix(Received), RowSuffix(Waiting);
      RowBacktrack(s, lo, q) ==
        if lo + |r| <= q && LiteralAt(s, q - |r|, r) then Some((q - |r|, Received))
        else if lo + |w| <= q && LiteralAt(s, q - |w|, w) then Some((q - |w|, Waiting))
        else None
  {
    var r, w := RowSuffix(Received), RowSuffix(Waiting);
    assert |r| + 3 == |w|;
    if lo + |r| > q {
      RowRestOnlyAt(s, lo, q, lo, q);
      RowBacktrackFails(s, lo, q);
    } else {
      var R := q - |r|;
      if R < q {
        RowRestOnlyAt(s, lo, q, R + 1, q);
      }
      RowBacktrackSkip(s, lo, R, q);
      RowRestOnLine(s, lo, q, R);
      if !LiteralAt(s, R, r) && lo < R {
        RowBacktrackWaiting(s, lo, q, R - 1);
      }
    }
  }

  /** Below the start of the longer suffix, backtracking finds the shorter one or nothing. */
  lemma RowBacktrackWaiting(s: string, lo: nat, q: nat, k: nat)
    requires lo <= |s| && NextLineFeed(s, lo) == Some(q) && lo <= k
    requires k + |RowSuffix(Received)| < q <= k + |RowSuffix(Waiting)|
    ensures var w := RowSuffix(Waiting);
      RowBacktrack(s, lo, k) ==
        if lo + |w| <= q && LiteralAt(s, q - |w|, w) then Some((q - |w|, Waiting)) else None
  {
    var w := RowSuffix(Waiting);
    if lo + |w| > q {
      RowRestOnlyAt(s, lo, q, lo, k);
      RowBacktrackFails(s, lo, k);
    } else {
      var W := q - |w|;
      if W < k {
        RowRestOnlyAt(s, lo, q, W + 1, k);
      }
      RowBacktrackSkip(s, lo, W, k);
      RowRestOnLine(s, lo, q, W);
      if !LiteralAt(s, W, w) && lo < W {
        RowRestOnlyAt(s, lo, q, lo, W - 1);
        RowBacktrackFails(s, lo, W - 1);
      }
    }
  }

  /** The line `s[i..q]` ends with the suffix of `status`. */
  lemma RowStatusOnLine(s: string, i: nat, q: nat)
    requires i <= q <= |s|
    ensures var r, w := RowSuffix(Received), RowSuffix(Waiting);
      RowStatus(s[i..q]) ==
        if i + |r| <= q && LiteralAt(s, q - |r|, r) then Some(Received)
        else if i + |w| <= q && LiteralAt(s, q - |w|, w) then Some(Waiting)
        else None
  {
    EndsWithSlice(s, i, q, RowSuffix(Received));
    EndsWithSlice(s, i, q, RowSuffix(Waiting));
  }

  /** The text of the line `s[i..q]` before its row suffix. */
  function RowBody(s: string, i: nat, q: nat, status: string): string
    requires i + |RowSuffix(status)| <= q <= |s|
  {
    s[i..q - |RowSuffix(status)|]
  }

  /** At a position of a line, the race-row pattern matches at `<tr><td>` followed, on the line, by a name and a row suffix. */
  lemma RowEngineOnLine(s: string, i: nat, q: nat, p: nat)
    requires i <= |s| && NextLineFeed(s, i) == Some(q) && i <= p <= q
    ensures var r, w, n := RowSuffix(Received), RowSuffix(Waiting), |RowOpen|;
      RowAt(s, p) ==
        if !OccursAt(s, p, RowOpen) then None
        else if p + n + |r| <= q && LiteralAt(s, q - |r|, r) then Some(Match(q + 1, [s[p + n..q - |r|], Received]))
        else if p + n + |w| <= q && LiteralAt(s, q - |w|, w) then Some(Match(q + 1, [s[p + n..q - |w|], Waiting]))
        else None
  {
    LiteralAtOccurs(s, p, RowOpen);
    if OccursAt(s, p, RowOpen) {
      MarkersHaveNoLineFeed();
      OccursWithinLine(s, i, q, p, RowOpen);
      SameLine(s, i, q, p + |RowOpen|);
      RowBacktrackOnLine(s, p + |RowOpen|, q);
    }
  }

  /** The groups of a race-row match at `p` on the line that ends at `q` with the suffix of `status`. */
  function RowCapture(s: string, p: nat, q: nat, status: string): seq<string>
    requires p + |RowOpen| <= q - |RowSuffix(status)| && q <= |s|
  {
    [s[p + |RowOpen|..q - |RowSuffix(status)|], status]
  }

  /** The race-row match at `p` of the line ending at `q`, by the suffix that ends the line. */
  function RowMatchBySuffix(s: string, i: nat, q: nat, p: nat): Option<Match>
    requires i <= p <= q <= |s|
  {
    match RowStatus(s[i..q])
    case None => None
    case Some(status) =>
      if p + |RowOpen| <= q - |RowSuffix(status)| && OccursAt(s, p, RowOpen)
      then Some(Match(q + 1, RowCapture(s, p, q, status)))
      else None
  }

  lemma RowSuffixMatch(s: string, i: nat, q: nat, p: nat)
    requires i <= p <= q <= |s|
    ensures var r, w, n := RowSuffix(Received), RowSuffix(Waiting), |RowOpen|;
      RowMatchBySuffix(s, i, q, p) ==
        if !OccursAt(s, p, RowOpen) then None
        else if p + n + |r| <= q && LiteralAt(s, q - |r|, r) then Some(Match(q + 1, [s[p + n..q - |r|], Received]))
        else if p + n + |w| <= q && LiteralAt(s, q - |w|, w) then Some(Match(q + 1, [s[p + n..q - |w|], Waiting]))
        else None
  {
    RowStatusOnLine(s, i, q);
  }

  /** At a position of a line, the race-row pattern matches exactly at occurrences of `<tr><td>` before the row suffix. */
  lemma RowMatchOnLine(s: string, i: nat, q: nat, p: nat)
    requires i <= |s| && NextLineFeed(s, i) == Some(q) && i <= p <= q
    ensures RowAt(s, p) == RowMatchBySuffix(s, i, q, p)
  {
    RowEngineOnLine(s, i, q, p);
    RowSuffixMatch(s, i, q, p);
  }

  /** Where on the line `s[i..q]` the race-row pattern first matches, and the groups it captures there. */
  function RowFirst(s: string, i: nat, q: nat): Option<(nat, seq<string>)>
    requires i <= q <= |s|
  {
    match RowStatus(s[i..q])
    case None => None
    case Some(status) => (
      match FirstOccurrence(RowBody(s, i, q, status), RowOpen)
      case None => None
      case Some(f) => Some((i + f, RowCapture(s, i + f, q, status))))
  }

  /** The race-row pattern matches nowhere on a line that does not end with a row suffix. */
  lemma RowFirstNoStatus(s: string, i: nat, q: nat)
    requires i <= |s| && NextLineFeed(s, i) == Some(q) && RowStatus(s[i..q]).None?
    ensures forall p :: i <= p <= q ==> RowAt(s, p).None?
  {
    forall p | i <= p <= q ensures RowAt(s, p).None? {
      RowMatchOnLine(s, i, q, p);
    }
  }

  /** The race-row pattern matches nowhere on the line before the first `<tr><td>` of its body. */
  lemma RowFirstNoOpen(s: string, i: nat, q: nat, status: string, j: nat)
    requires i <= |s| && NextLineFeed(s, i) == Some(q) && RowStatus(s[i..q]) == Some(status) && i <= j <= q + 1
    requires forall k: nat :: k < j - i ==> !OccursAt(RowBody(s, i, q, status), k, RowOpen)
    ensures forall p :: i <= p < j ==> RowAt(s, p).None?
  {
    forall p | i <= p < j ensures RowAt(s, p).None? {
      assert !OccursAt(RowBody(s, i, q, status), p - i, RowOpen);
      RowNoOpenAt(s, i, q, status, p);
    }
  }

  /** The race-row pattern does not match where the line's body has no `<tr><td>`. */
  lemma RowNoOpenAt(s: string, i: nat, q: nat, status: string, p: nat)
    requires i <= |s| && NextLineFeed(s, i) == Some(q) && RowStatus(s[i..q]) == Some(status) && i <= p <= q
    requires !OccursAt(RowBody(s, i, q, status), p - i, RowOpen)
    ensures RowAt(s, p).None?
  {
    OccursInSlice(s, i, q - |RowSuffix(status)|, p, RowOpen);
    RowMatchOnLine(s, i, q, p);
  }

  /** The race-row pattern matches at the first `<tr><td>` of the line's body, up to the end of the line. */
  lemma RowFirstHit(s: string, i: nat, q: nat, p: nat, m: Match)
    requires i <= |s| && NextLineFeed(s, i) == Some(q) && i <= p <= q
    requires RowMatchBySuffix(s, i, q, p) == Some(m)
    ensures RowAt(s, p) == Some(m)
  {
    RowMatchOnLine(s, i, q, p);
  }

  lemma RowFirstBySuffix(s: string, i: nat, q: nat, status: string, f: nat)
    requires i <= q <= |s| && RowStatus(s[i..q]) == Some(status)
    requires FirstOccurrence(RowBody(s, i, q, status), RowOpen) == Some(f)
    ensures i + f + |RowOpen| <= q - |RowSuffix(status)|
    ensures RowMatchBySuffix(s, i, q, i + f) == Some(Match(q + 1, RowCapture(s, i + f, q, status)))
  {
    OccursInSlice(s, i, q - |RowSuffix(status)|, i + f, RowOpen);
  }

  lemma RowFirstIs(s: string, i: nat, q: nat, status: string, f: nat)
    requires i <= q <= |s| && RowStatus(s[i..q]) == Some(status)
    requires FirstOccurrence(RowBody(s, i, q, status), RowOpen) == Some(f)
    ensures i + f + |RowOpen| <= q - |RowSuffix(status)|
    ensures RowFirst(s, i, q) == Some((i + f, RowCapture(s, i + f, q, status)))
  {
  }

  /** Where `RowFirst` finds nothing, the race-row pattern matches nowhere on the line. */
  lemma RowFirstNone(s: string, i: nat, q: nat)
    requires i <= |s| && NextLineFeed(s, i) == Some(q) && RowFirst(s, i, q).None?
    ensures forall p :: i <= p <= q ==> RowAt(s, p).None?
  {
    match RowStatus(s[i..q])
    case None =>
      RowFirstNoStatus(s, i, q);
    case Some(status) =>
      RowFirstNoOpen(s, i, q, status, q + 1);
  }

  /** Where `RowFirst` finds a match, the pattern matches nowhere on the line before it. */
  lemma RowFirstBefore(s: string, i: nat, q: nat)
    requires i <= |s| && NextLineFeed(s, i) == Some(q) && RowFirst(s, i, q).Some?
    ensures i <= RowFirst(s, i, q).value.0 <= q
    ensures forall p :: i <= p < RowFirst(s, i, q).value.0 ==> RowAt(s, p).None?
  {
    var status := RowStatus(s[i..q]).value;
    var f := FirstOccurrence(RowBody(s, i, q, status), RowOpen).value;
    RowFirstIs(s, i, q, status, f);
    RowFirstNoOpen(s, i, q, status, i + f);
  }

  /** Where `RowFirst` finds a match, the pattern matches there with the groups `RowFirst` gives. */
  lemma RowFirstAt(s: string, i: nat, q: nat)
    requires i <= |s| && NextLineFeed(s, i) == Some(q) && RowFirst(s, i, q).Some?
    ensures i <= RowFirst(s, i, q).value.0 <= q
    ensures RowAt(s, RowFirst(s, i, q).value.0) == Some(Match(q + 1, RowFirst(s, i, q).value.1))
  {
    var status := RowStatus(s[i..q]).value;
    var f := FirstOccurrence(RowBody(s, i, q, status), RowOpen).value;
    RowFirstIs(s, i, q, status, f);
    RowFirstBySuffix(s, i, q, status, f);
    RowFirstHit(s, i, q, i + f, Match(q + 1, RowCapture(s, i + f, q, status)));
  }

  /** `RowFirst` is where the scan through the line finds its match. */
  lemma RowFirstScan(s: string, i: nat, q: nat)
    requires i <= |s| && NextLineFeed(s, i) == Some(q)
    ensures var first := RowFirst(s, i, q);
      && (forall p :: i <= p <= q && (first.None? || p < first.value.0) ==> RowAt(s, p).None?)
      && (first.Some? ==> i <= first.value.0 <= q && RowAt(s, first.value.0) == Some(Match(q + 1, first.value.1)))
  {
    if RowFirst(s, i, q).None? {
      RowFirstNone(s, i, q);
    } else {
      RowFirstBefore(s, i, q);
      RowFirstAt(s, i, q);
    }
  }

  /** `RowFirst` captures what the plain description of a race row captures. */
  lemma RowFirstCaptures(s: string, i: nat, q: nat)
    requires i <= q <= |s|
    ensures (match RowOnLine(s[i..q]) case None => [] case Some(g) => [g]) ==
      (match RowFirst(s, i, q) case None => [] case Some(h) => [h.1])
  {
    match RowStatus(s[i..q])
    case None =>
    case Some(status) =>
      RowCapturesWith(s, i, q, status);
  }

  /** On a line that ends with the suffix of `status`, `RowFirst` captures what `RowOnLine` does. */
  lemma RowCapturesWith(s: string, i: nat, q: nat, status: string)
    requires i <= q <= |s| && RowStatus(s[i..q]) == Some(status)
    ensures (match RowOnLine(s[i..q]) case None => [] case Some(g) => [g]) ==
      (match RowFirst(s, i, q) case None => [] case Some(h) => [h.1])
  {
    var line := s[i..q];
    var body := RowBody(s, i, q, status);
    assert line[..|line| - |RowSuffix(status)|] == body;
    match FirstOccurrence(body, RowOpen)
    case None =>
    case Some(f) =>
      assert body[f + |RowOpen|..] == RowCapture(s, i + f, q, status)[0];
  }

  /** On a line, the race-row pattern matches once if the line is a row, and not at all otherwise. */
  lemma RowLine(s: string, i: nat, q: nat)
    requires i <= |s| && NextLineFeed(s, i) == Some(q)
    ensures Scan(RowTable(s), 2, i) ==
      (match RowOnLine(s[i..q]) case None => [] case Some(g) => [g]) + Scan(RowTable(s), 2, q + 1)
  {
    RowFirstScan(s, i, q);
    LineScan(RowTable(s), 2, i, q, RowFirst(s, i, q));
    RowFirstCaptures(s, i, q);
  }

  /** The scan for the race-row pattern proceeds line by line. */
  lemma RowSteps(s: string)
    ensures forall a :: 0 <= a <= |s| ==> LineStep(RowTable(s), 2, s, a, RowOnLine)
  {
    forall a | 0 <= a <= |s| ensures LineStep(RowTable(s), 2, s, a, RowOnLine) {
      match NextLineFeed(s, a)
      case None =>
        RowNoLineFeed(s, a);
        ScanNone(RowTable(s), 2, a);
      case Some(q) =>
        RowLine(s, a, q);
    }
  }

  /** `Next turn due: (.*)\n` matches once on each line that holds its marker, in order. */
  lemma DueMatches(s: string)
    ensures AllMatches(NextTurnDue, s) == OnLines(DueOnLine, Lines(s))
  {
    DueSteps(s);
    ScanByLines(DueTable(s), 1, s, 0, DueOnLine);
  }

  /** The race-row pattern matches once on each line that is a race row, in order. */
  lemma RowMatches(s: string)
    ensures AllMatches(RaceRow, s) == OnLines(RowOnLine, Lines(s))
  {
    RowSteps(s);
    ScanByLines(RowTable(s), 2, s, 0, RowOnLine);
  }

  // Turn numbers.

  /** `Turn number ` holds its first letter nowhere else. */
  lemma TurnMarkerStartsOnce()
    ensures forall k :: 0 < k < |TurnMarker| ==> TurnMarker[k] != TurnMarker[0]
  {
  }

  /** A match of `Turn number (\d*)` holds no other occurrence of `Turn number ` after its start. */
  lemma TurnNoOverlap(s: string, i: nat, p: nat)
    requires LiteralAt(s, i, TurnMarker) && i < p < DigitRunEnd(s, i + |TurnMarker|)
    ensures !OccursAt(s, p, TurnMarker)
  {
    LiteralAtOccurs(s, i, TurnMarker);
    if OccursAt(s, p, TurnMarker) {
      assert s[p] == s[p..p + |TurnMarker|][0] == TurnMarker[0];
      if p < i + |TurnMarker| {
        TurnMarkerStartsOnce();
      }
    }
  }

  /** The scan for `Turn number (\d*)` from `i` captures the digit runs after the occurrences of its marker from `i`. */
  lemma {:induction false} TurnFrom(s: string, i: nat)
    requires i <= |s|
    ensures Scan(TurnTable(s), 1, i) == DigitRuns(s, Occurrences(s, TurnMarker, i))
    decreases |s| - i
  {
    var at := TurnTable(s);
    LiteralAtOccurs(s, i, TurnMarker);
    match at[i]
    case Some(m) =>
      var e := m.end;
      forall p: nat | i + 1 <= p < e ensures !OccursAt(s, p, TurnMarker) {
        TurnNoOverlap(s, i, p);
      }
      OccurrencesSkip(s, TurnMarker, i + 1, e);
      TurnFrom(s, e);
      assert Occurrences(s, TurnMarker, i) == [i] + Occurrences(s, TurnMarker, e);
    case None =>
      if i < |s| {
        assert Occurrences(s, TurnMarker, i) == Occurrences(s, TurnMarker, i + 1);
        TurnFrom(s, i + 1);
      }
  }

  /** `Turn number (\d*)` matches at every occurrence of its marker, in order, capturing the digits after it. */
  lemma TurnMatches(s: string)
    ensures AllMatches(TurnNumber, s) == DigitRuns(s, Occurrences(s, TurnMarker, 0))
  {
    TurnFrom(s, 0);
  }
}
