/**
 * The server watcher of DomTurnMonitor: the three extractors that read a
 * game's status page, and the update cycle that runs them behind the
 * `performingUpdate` gate and reports what they found as events.
 *
 * The page text is a parameter (fetching it is I/O); so is the calendar
 * check of `DateTime.TryParseExact`. An exception thrown by `int.Parse`
 * or `String.Remove` is an explicit outcome.
 */
module Watcher {
  import opened Wrappers
  import opened Strings
  import opened Patterns
  import opened DeadlineFormat

  /** The exceptions the extractors can throw. */
  datatype Fault =
    | FormatError       // int.Parse of an empty string
    | Overflow          // int.Parse of a number above Int32.MaxValue
    | RemoveOutOfRange  // String.Remove(s.Length - 2) on a string shorter than 2

  /** What a call does: return a value, or throw. */
  datatype Outcome<T> = Returned(value: T) | Threw(fault: Fault)

  /** `Int32.MaxValue`. */
  const IntMax: int := 2147483647

  /** `int.Parse` of a string of ASCII digits. */
  function IntParse(ds: string): (r: Outcome<int>)
    requires AllDigits(ds)
    ensures r.Returned? ==> 0 <= r.value <= IntMax
  {
    if ds == [] then Threw(FormatError)
    else if DecimalValue(ds) > IntMax then Threw(Overflow)
    else Returned(DecimalValue(ds))
  }

  /** `int.Parse` reads back the decimal rendering of every `int` it can hold. */
  lemma IntParseRoundTrip(n: nat)
    requires n <= IntMax
    ensures IntParse(DecimalDigits(n)) == Returned(n)
  {
    DecimalRoundTrip(n);
  }

  /** Leading zeros do not change what `int.Parse` reads. */
  lemma IntParseLeadingZero(ds: string)
    requires AllDigits(ds) && ds != []
    ensures AllDigits("0" + ds) && IntParse("0" + ds) == IntParse(ds)
  {
    DecimalLeadingZero(ds);
  }

  // ---------------------------------------------------------------------
  // ExtractTurnNumber

  /**
   * `ExtractTurnNumber`: `(true, n)` when `Turn number (\d*)` matches
   * exactly once, `n` being the number its digits denote; `(false, -1)`
   * otherwise. `int.Parse` throws on an empty run and on an overflow.
   */
  function ExtractTurnNumber(data: string): (r: Outcome<(bool, int)>)
    ensures r.Returned? ==> (r.value.0 <==> 0 <= r.value.1) && (!r.value.0 ==> r.value.1 == -1) && r.value.1 <= IntMax
  {
    var matches := AllMatches(TurnNumber, data);
    // A match holds its captures; `Groups.Count` also counts group 0, the whole match.
    if |matches| == 1 && |matches[0]| + 1 == 2 then
      TurnMatches(data);
      match IntParse(matches[0][0])
      case Threw(f) => Threw(f)
      case Returned(n) => Returned((true, n))
    else Returned((false, -1))
  }

  /**
   * `ExtractTurnNumber` in terms of the occurrences of `Turn number `: it
   * succeeds exactly when there is one, even where several carry the same
   * number, and then reads the digits that follow it.
   */
  lemma TurnNumberByOccurrences(data: string)
    ensures var occ := Occurrences(data, TurnMarker, 0);
      && (|occ| != 1 ==> ExtractTurnNumber(data) == Returned((false, -1)))
      && (|occ| == 1 ==>
            var ds := DigitsAfter(data, occ[0]);
            && (ds == [] ==> ExtractTurnNumber(data) == Threw(FormatError))
            && (ds != [] && DecimalValue(ds) > IntMax ==> ExtractTurnNumber(data) == Threw(Overflow))
            && (ds != [] && DecimalValue(ds) <= IntMax ==> ExtractTurnNumber(data) == Returned((true, DecimalValue(ds)))))
  {
    TurnMatches(data);
  }

  // ---------------------------------------------------------------------
  // ExtractHostingTime

  /**
   * `ExtractHostingTime`: when `Next turn due: (.*)\n` matches exactly
   * once, its capture loses its last two characters and the rest is parsed
   * with the format; `None` stands for `false` with the default `DateTime`.
   */
  function ExtractHostingTime(data: string, calendarValid: Stamp -> bool): (r: Outcome<Option<Stamp>>)
    ensures r.Returned? && r.value.Some? ==> InRange(r.value.value) && calendarValid(r.value.value)
  {
    var matches := AllMatches(NextTurnDue, data);
    // As in `ExtractTurnNumber`, `Groups.Count` is one more than the captures.
    if |matches| == 1 && |matches[0]| + 1 == 2 then
      var s := matches[0][0];
      if |s| < 2 then Threw(RemoveOutOfRange)
      else Returned(TryParseExact(s[..|s| - 2], calendarValid))
    else Returned(None)
  }

  /**
   * `ExtractHostingTime` in terms of lines: it goes on only when exactly one
   * line that ends with a line feed holds `Next turn due: `; it then drops
   * the last two characters of what follows the marker on that line, whatever
   * they are, and throws where fewer than two follow.
   */
  lemma HostingTimeByLines(data: string, calendarValid: Stamp -> bool)
    ensures var hits := OnLines(DueOnLine, Lines(data));
      && hits == AllMatches(NextTurnDue, data)
      && (|hits| != 1 ==> ExtractHostingTime(data, calendarValid) == Returned(None))
      && (|hits| == 1 ==>
            var rest := hits[0][0];
            && (|rest| < 2 ==> ExtractHostingTime(data, calendarValid) == Threw(RemoveOutOfRange))
            && (|rest| >= 2 ==> ExtractHostingTime(data, calendarValid) == Returned(TryParseExact(rest[..|rest| - 2], calendarValid))))
  {
    DueMatches(data);
  }

  /** Each capture of `Next turn due: (.*)\n` is what follows the marker's first occurrence on one of the lines. */
  lemma DueHitFromLine(data: string, k: nat)
    requires k < |AllMatches(NextTurnDue, data)|
    ensures exists j :: 0 <= j < |Lines(data)| && After(Lines(data)[j], DueMarker) == Some(AllMatches(NextTurnDue, data)[k][0])
  {
    DueMatches(data);
    OnLinesFrom(DueOnLine, Lines(data), k);
  }

  // ---------------------------------------------------------------------
  // ExtractRaceInfo

  /**
   * The dictionary that `ExtractRaceInfo` builds from the matches `rows`,
   * in order: each row sets its trimmed name to whether its status is
   * "2h file received", so a later row overwrites an earlier one.
   */
  function RaceTable(rows: seq<seq<string>>): (r: map<string, bool>)
    ensures var last := if rows == [] then [] else rows[|rows| - 1];
      |last| == 2 ==> TrimSpaces(last[0]) in r && r[TrimSpaces(last[0])] == (last[1] == Received)
  {
    if rows == [] then map[]
    else
      var before := RaceTable(rows[..|rows| - 1]);
      var m := rows[|rows| - 1];
      if |m| + 1 == 3 then before[TrimSpaces(m[0]) := m[1] == Received] else before
  }

  /** `ExtractRaceInfo`: fills a dictionary from the race-row matches, in order. */
  method ExtractRaceInfo(data: string) returns (result: map<string, bool>)
    ensures result == RaceTable(AllMatches(RaceRow, data))
  {
    var matches := AllMatches(RaceRow, data);
    result := map[];
    var i := 0;
    while i < |matches|
      invariant 0 <= i <= |matches|
      invariant result == RaceTable(matches[..i])
    {
      RaceTableStep(matches, i);
      var m := matches[i];
      if |m| + 1 == 3 {
        var turnComplete := false;
        if m[1] == Received {
          turnComplete := true;
        }
        var raceName := TrimSpaces(m[0]);
        result := result[raceName := turnComplete];
      }
      i := i + 1;
    }
    assert matches[..i] == matches;
  }

  /** One more row: the dictionary of the first `i + 1` rows is that of the first `i`, updated by row `i`. */
  lemma RaceTableStep(rows: seq<seq<string>>, i: nat)
    requires i < |rows|
    ensures var before := RaceTable(rows[..i]);
      RaceTable(rows[..i + 1]) == if |rows[i]| == 2 then before[TrimSpaces(rows[i][0]) := rows[i][1] == Received] else before
  {
    assert rows[..i + 1][..i] == rows[..i];
  }

  /** The trimmed names of the rows of two groups. */
  function RaceNames(rows: seq<seq<string>>): set<string> {
    set k | 0 <= k < |rows| && |rows[k]| == 2 :: TrimSpaces(rows[k][0])
  }

  /** The names of the rows are those of all but the last, and the last one's where it has two groups. */
  lemma RaceNamesSnoc(rows: seq<seq<string>>)
    requires rows != []
    ensures var last := rows[|rows| - 1];
      RaceNames(rows) == RaceNames(rows[..|rows| - 1]) + (if |last| == 2 then {TrimSpaces(last[0])} else {})
  {
    var init := rows[..|rows| - 1];
    forall n | n in RaceNames(rows) ensures n in RaceNames(init) || (|rows[|rows| - 1]| == 2 && n == TrimSpaces(rows[|rows| - 1][0])) {
      var k :| 0 <= k < |rows| && |rows[k]| == 2 && TrimSpaces(rows[k][0]) == n;
      if k < |init| {
        assert init[k] == rows[k];
      }
    }
    forall n | n in RaceNames(init) ensures n in RaceNames(rows) {
      var k :| 0 <= k < |init| && |init[k]| == 2 && TrimSpaces(init[k][0]) == n;
      assert rows[k] == init[k];
    }
  }

  /** The dictionary's keys are exactly the trimmed names of the rows. */
  lemma {:induction false} RaceTableKeys(rows: seq<seq<string>>)
    ensures RaceTable(rows).Keys == RaceNames(rows)
  {
    if rows != [] {
      RaceTableKeys(rows[..|rows| - 1]);
      RaceNamesSnoc(rows);
    }
  }

  /** Row `j` is the last row that carries its trimmed name. */
  predicate LastOfName(rows: seq<seq<string>>, j: nat)
    requires j < |rows| && |rows[j]| == 2
  {
    forall k :: j < k < |rows| && |rows[k]| == 2 ==> TrimSpaces(rows[k][0]) != TrimSpaces(rows[j][0])
  }

  /** Each name maps to whether the last row that carries it has the status "2h file received". */
  lemma {:induction false} RaceTableLastWins(rows: seq<seq<string>>, j: nat)
    requires j < |rows| && |rows[j]| == 2 && LastOfName(rows, j)
    ensures TrimSpaces(rows[j][0]) in RaceTable(rows)
    ensures RaceTable(rows)[TrimSpaces(rows[j][0])] == (rows[j][1] == Received)
  {
    var init := rows[..|rows| - 1];
    if j < |rows| - 1 {
      assert init[j] == rows[j];
      forall k | j < k < |init| && |init[k]| == 2 ensures TrimSpaces(init[k][0]) != TrimSpaces(init[j][0]) {
        assert init[k] == rows[k];
      }
      RaceTableLastWins(init, j);
    }
  }

  /** `ExtractRaceInfo`, in terms of lines: one entry for each line that is a race row, later lines winning. */
  lemma RaceInfoByLines(data: string)
    ensures RaceTable(AllMatches(RaceRow, data)) == RaceTable(OnLines(RowOnLine, Lines(data)))
  {
    RowMatches(data);
  }

  /** Each race-row match has a name and one of the two statuses the pattern allows. */
  lemma RowStatusFromLine(data: string, k: nat)
    requires k < |AllMatches(RaceRow, data)|
    ensures AllMatches(RaceRow, data)[k][1] in {Received, Waiting}
  {
    RowMatches(data);
    OnLinesFrom(RowOnLine, Lines(data), k);
  }

  /** A page with no race row, the empty page among them, gives an empty dictionary. */
  lemma RaceInfoEmpty(data: string)
    requires OnLines(RowOnLine, Lines(data)) == []
    ensures RaceTable(AllMatches(RaceRow, data)) == map[]
  {
    RaceInfoByLines(data);
  }

  // ---------------------------------------------------------------------
  // The update cycle

  /** The notifications of the watcher, in the order they are fired. */
  datatype Event =
    | HostingTimeChanged(deadline: Stamp)
    | CurrentTurnNumberChanged(turn: int)
    | RaceStatusChanged(races: map<string, bool>)

  /** What the body of the update task does: the events it fires, and the exception that ended it, if any. */
  datatype Run = Run(events: seq<Event>, fault: Option<Fault>)

  /**
   * What the body of the update task fires, given what the extractors
   * return: the hosting time, then the turn number, each only where it was
   * found, then the race table, which is always reported. An exception ends
   * the task where it is thrown.
   */
  function Report(hosting: Outcome<Option<Stamp>>, turn: Outcome<(bool, int)>, races: map<string, bool>): (r: Run)
    ensures |r.events| <= 3
    ensures r.fault.None? <==> r.events != [] && r.events[|r.events| - 1] == RaceStatusChanged(races)
  {
    match hosting
    case Threw(f) => Run([], Some(f))
    case Returned(deadline) =>
      var fired := if deadline.Some? then [HostingTimeChanged(deadline.value)] else [];
      match turn
      case Threw(f) => Run(fired, Some(f))
      case Returned((found, n)) =>
        Run(fired + (if found then [CurrentTurnNumberChanged(n)] else []) + [RaceStatusChanged(races)], None)
  }

  /** The body of the update task on the page `data`. */
  function Cycle(data: string, calendarValid: Stamp -> bool): (r: Run)
    ensures r.fault.None? <==> r.events != [] && r.events[|r.events| - 1] == RaceStatusChanged(RaceTable(AllMatches(RaceRow, data)))
  {
    Report(ExtractHostingTime(data, calendarValid), ExtractTurnNumber(data), RaceTable(AllMatches(RaceRow, data)))
  }

  /** A task that ran to its end fires at most one hosting time, at most one turn number, then the race table, in that order. */
  lemma ReportOrder(hosting: Outcome<Option<Stamp>>, turn: Outcome<(bool, int)>, races: map<string, bool>)
    ensures var run := Report(hosting, turn, races);
      run.fault.None? ==>
        && 1 <= |run.events| <= 3
        && run.events[|run.events| - 1] == RaceStatusChanged(races)
        && (forall k :: 0 <= k < |run.events| - 1 ==> !run.events[k].RaceStatusChanged?)
        && (forall k :: 0 <= k < |run.events| && run.events[k].HostingTimeChanged? ==> k == 0)
        && (forall k :: 0 <= k < |run.events| && run.events[k].CurrentTurnNumberChanged? ==> k == |run.events| - 2)
  {
  }

  /** A hosting-time event is fired exactly when the hosting time was found, and carries it. */
  lemma ReportHostingTime(hosting: Outcome<Option<Stamp>>, turn: Outcome<(bool, int)>, races: map<string, bool>)
    ensures var run := Report(hosting, turn, races);
      && (run.events != [] && run.events[0].HostingTimeChanged? <==> hosting.Returned? && hosting.value.Some?)
      && (run.events != [] && run.events[0].HostingTimeChanged? ==> hosting == Returned(Some(run.events[0].deadline)))
  {
  }

  /** A turn-number event is fired exactly when the hosting time did not throw and the turn number was found, and carries it. */
  lemma ReportTurnNumber(hosting: Outcome<Option<Stamp>>, turn: Outcome<(bool, int)>, races: map<string, bool>)
    ensures var run := Report(hosting, turn, races);
      && ((exists k :: 0 <= k < |run.events| && run.events[k].CurrentTurnNumberChanged?) <==>
            hosting.Returned? && turn.Returned? && turn.value.0)
      && (forall k :: 0 <= k < |run.events| && run.events[k].CurrentTurnNumberChanged? ==>
            turn == Returned((true, run.events[k].turn)))
  {
    var run := Report(hosting, turn, races);
    if hosting.Returned? && turn.Returned? && turn.value.0 {
      assert run.events[|run.events| - 2].CurrentTurnNumberChanged?;
    }
  }

  /** An exception ends the task before the race table is reported; only a hosting time can have been fired. */
  lemma ReportFault(hosting: Outcome<Option<Stamp>>, turn: Outcome<(bool, int)>, races: map<string, bool>)
    ensures var run := Report(hosting, turn, races);
      && (run.fault.Some? <==> hosting.Threw? || (hosting.Returned? && turn.Threw?))
      && (run.fault.Some? ==> |run.events| <= 1 && forall k :: 0 <= k < |run.events| ==> run.events[k].HostingTimeChanged?)
      && (hosting.Threw? ==> run.events == [])
  {
  }

  /**
   * The watcher of one game. Only the gate is state: the watcher keeps no
   * last-known values.
   */
  class ServerWatcher {
    const gameName: string
    var performingUpdate: bool

    /**
     * The constructor's own `Update()` passes the gate and starts the first
     * cycle, which it does not wait for: the watcher starts with an update
     * under way (its end is a later `Complete`).
     */
    constructor(gameName: string)
      ensures this.gameName == gameName && performingUpdate
    {
      this.gameName := gameName;
      performingUpdate := true;
    }

    /** The part of `Update` before the `await`: the gate, which lets through only a caller that finds it open. */
    method Begin() returns (started: bool)
      modifies this
      ensures started <==> !old(performingUpdate)
      ensures performingUpdate
    {
      started := false;
      if !performingUpdate {
        performingUpdate := true;
        started := true;
      }
    }

    /**
     * The update task, run on the page `data` once `Begin` has let it
     * through: it fires the cycle's events and opens the gate again, unless
     * an exception ended it first, in which case the gate stays closed.
     */
    method Complete(data: string, calendarValid: Stamp -> bool) returns (events: seq<Event>)
      requires performingUpdate
      modifies this
      ensures events == Cycle(data, calendarValid).events
      ensures performingUpdate <==> Cycle(data, calendarValid).fault.Some?
    {
      var hosting := ExtractHostingTime(data, calendarValid);
      events := Fire(hosting, data);
    }

    /**
     * The three blocks of the update task, once the first has computed the
     * hosting time `hosting`: each block fires what its extractor found, and
     * the gate opens again only after the last.
     */
    method Fire(hosting: Outcome<Option<Stamp>>, data: string) returns (events: seq<Event>)
      requires performingUpdate
      modifies this
      ensures var run := Report(hosting, ExtractTurnNumber(data), RaceTable(AllMatches(RaceRow, data)));
        events == run.events && (performingUpdate <==> run.fault.Some?)
    {
      events := [];
      if hosting.Threw? {
        return;
      }
      if hosting.value.Some? {
        events := events + [HostingTimeChanged(hosting.value.value)];
      }
      var turnNumber := ExtractTurnNumber(data);
      events := FireTurn(events, turnNumber, data);
    }

    /**
     * The turn-number and race-table blocks of the update task, once the
     * hosting-time block has fired `fired` and `ExtractTurnNumber` has
     * returned or thrown `turn`.
     */
    method FireTurn(fired: seq<Event>, turn: Outcome<(bool, int)>, data: string) returns (events: seq<Event>)
      requires performingUpdate
      modifies this
      ensures turn.Threw? ==> events == fired && performingUpdate
      ensures turn.Returned? ==>
        && events == fired + (if turn.value.0 then [CurrentTurnNumberChanged(turn.value.1)] else []) + [RaceStatusChanged(RaceTable(AllMatches(RaceRow, data)))]
        && !performingUpdate
    {
      events := fired;
      if turn.Threw? {
        return;
      }
      if turn.value.0 {
        events := events + [CurrentTurnNumberChanged(turn.value.1)];
      }
      var races := ExtractRaceInfo(data);
      events := events + [RaceStatusChanged(races)];
      performingUpdate := false;
    }

    /**
     * `Update` when nothing runs between its steps: a call that finds an
     * update under way changes nothing and fires nothing; any other runs a
     * whole cycle on the page `data`.
     */
    method Update(data: string, calendarValid: Stamp -> bool) returns (events: seq<Event>)
      modifies this
      ensures old(performingUpdate) ==> events == [] && performingUpdate
      ensures !old(performingUpdate) ==>
        events == Cycle(data, calendarValid).events && (performingUpdate <==> Cycle(data, calendarValid).fault.Some?)
    {
      var started := Begin();
      events := [];
      if started {
        events := Complete(data, calendarValid);
      }
    }
  }
}
