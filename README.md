# DomTurnMonitor server watcher, modelled in Dafny

DomTurnMonitor watches a Dominions game. The `ServerWatcher` class of
`DomTurnMonitor/DomTurnMonitor/ServerWatcher.cs` reads the game's status page
and pulls three facts out of it with fixed .NET regular expressions:

- the time the next turn is due;
- the current turn number;
- which races have sent in their turn file.

It then reports each fact as an event. An update cycle runs behind a flag,
`performingUpdate`, so that a second cycle is never started while one is
running.

This project models that core and proves what it does:

- `strings.dfy`
  - module `Wrappers`: `Option`;
  - module `Strings`: the text notions the patterns need. These are
    occurrences of a marker, LF-terminated lines, the rest of a text after
    a marker, ASCII digit runs and their decimal value, `String.Trim(' ')`
    and ASCII case-insensitive comparison.
- `patterns.dfy` (module `Patterns`): `Regex.Matches` for the three
  patterns.
  - It works as .NET does: it tries every start position from left to
    right, takes the match found there, and goes on from its end. `.`
    excludes the line feed, `(.*)` is greedy and backtracks, and the
    left branch of an alternation is tried first.
  - It is proved equal to a plain description of each pattern: one
    capture per line or per marker occurrence.
- `deadline.dfy` (module `DeadlineFormat`): the lexical part of
  `DateTime.TryParseExact(s, "HH:mm GMT on dddd MMMM d", en-US)`. This is
  proved sound and complete against the spellings of a stamp, with a
  round trip.
- `watcher.dfy` (module `Watcher`):
  - the three extractors;
  - the exceptions that `int.Parse` and `String.Remove` throw, as explicit
    outcomes;
  - the events a cycle fires, in order;
  - the class `ServerWatcher`, whose only state is the gate flag.

Inputs that the source gets from outside are parameters:

- The page text replaces `GetServerData`, which is I/O.
- The calendar check of `TryParseExact` is a predicate `calendarValid`.
  This check needs the current year and the day of the week of the date.

Three behaviours of `ServerWatcher.cs` that the model keeps as written:

- An exception thrown by `ExtractHostingTime` or `ExtractTurnNumber`
  inside the update task skips `performingUpdate = false` (:108), so the
  flag stays set. Three inputs that cause it:
  - `int.Parse("")`, when `Turn number ` is followed by no digit;
  - `int.Parse` of a digit run above `Int32.MaxValue`, which overflows;
  - `Remove`, when the capture is shorter than two characters (counted
    as Unicode scalar values in the model; see "## Left out").
  If the process survives the exception that the `await` (:80) then
  rethrows, no later `Update` passes the gate.
- The hosting-time extractor drops the last two characters of the
  capture, whatever they are (:166), not only an ordinal suffix. For text
  outside the Basic Multilingual Plane the model's characters and .NET's
  differ; see "## Left out".
- The watcher keeps no last-known values: every cycle reports what it
  found.

## Model

| member | source | states |
|---|---|---|
| Strings.Occurrences | DomTurnMonitor/DomTurnMonitor/ServerWatcher.cs:182 | the positions listed are exactly those at or after `i` where the marker occurs, in increasing order, each with room for the whole marker |
| Strings.LinesCoverText | DomTurnMonitor/DomTurnMonitor/ServerWatcher.cs:155 | the LF-terminated lines, joined back, are the text up to its last line feed; no line feed follows |
| Strings.DecimalRoundTrip | DomTurnMonitor/DomTurnMonitor/ServerWatcher.cs:192 | the decimal digits of a number are all digits and denote that number |
| Strings.TrimSpaces | DomTurnMonitor/DomTurnMonitor/ServerWatcher.cs:213 | `Trim(' ')` gives the contiguous part of the text left after the leading and trailing spaces; it neither starts nor ends with a space, and only spaces are removed |
| Patterns.RowBacktrack | DomTurnMonitor/DomTurnMonitor/ServerWatcher.cs:203 | the greedy name group `(.*)` gives back characters from its largest end downwards: an end found lies between the group's start and the largest end tried, and the rest of the pattern matches there with the status found |
| Patterns.DueAt | DomTurnMonitor/DomTurnMonitor/ServerWatcher.cs:155 | a match of `Next turn due: (.*)\n` at a position ends after it, within the text, and has one group |
| Patterns.TurnAt | DomTurnMonitor/DomTurnMonitor/ServerWatcher.cs:182 | a match of `Turn number (\d*)` at a position ends after it, within the text, and has one group |
| Patterns.RowAt | DomTurnMonitor/DomTurnMonitor/ServerWatcher.cs:203 | a match of the race-row pattern at a position ends after it, within the text, and has two groups |
| Patterns.Scan | DomTurnMonitor/DomTurnMonitor/ServerWatcher.cs:157 | the matches of `Regex.Matches`, which tries the positions from left to right and goes on from the end of each match, each carry the pattern's number of groups; what they capture is stated by `DueMatches`, `TurnMatches` and `RowMatches` |
| Patterns.AllMatches | DomTurnMonitor/DomTurnMonitor/ServerWatcher.cs:157-162 | every match has the pattern's number of groups, so the `Groups.Count` tests always pass |
| Patterns.RowStatus | DomTurnMonitor/DomTurnMonitor/ServerWatcher.cs:203 | a row's status is one of the two alternatives, and its fixed suffix fits in the line |
| Patterns.DueMatches | DomTurnMonitor/DomTurnMonitor/ServerWatcher.cs:155-157 | `Next turn due: (.*)\n` matches once per LF-terminated line that holds the marker, in order, and captures the rest of that line after the marker's first occurrence |
| Patterns.TurnMatches | DomTurnMonitor/DomTurnMonitor/ServerWatcher.cs:182-184 | `Turn number (\d*)` matches once per occurrence of `Turn number `, in order, and captures the maximal run of ASCII digits after it, which may be empty |
| Patterns.RowMatches | DomTurnMonitor/DomTurnMonitor/ServerWatcher.cs:203-205 | the race-row pattern matches once per LF-terminated line that ends with the fixed suffix of one of the two statuses and holds `<tr><td>` before it; the name is what lies between the first `<tr><td>` and the suffix |
| DeadlineFormat.NameIndex | DomTurnMonitor/DomTurnMonitor/ServerWatcher.cs:168-169 | the name index found is of a name written at the position, in any ASCII letter case; none found means no name of the table is written there |
| DeadlineFormat.Clock | DomTurnMonitor/DomTurnMonitor/ServerWatcher.cs:168 | `HH:mm GMT on ` reads an hour below 24 and a minute below 60 |
| DeadlineFormat.DayAfter | DomTurnMonitor/DomTurnMonitor/ServerWatcher.cs:168 | the day `d` read is below 100 |
| DeadlineFormat.MonthDayAfter | DomTurnMonitor/DomTurnMonitor/ServerWatcher.cs:168-169 | the month read is 1 to the table's size and the day is below 100 |
| DeadlineFormat.ParseWith | DomTurnMonitor/DomTurnMonitor/ServerWatcher.cs:167-171 | a stamp read fits the tables: hour, minute, weekday, month and day in range |
| DeadlineFormat.Deadline | DomTurnMonitor/DomTurnMonitor/ServerWatcher.cs:167-171 | a stamp read in en-US has a weekday below 7 and a month 1 to 12 |
| DeadlineFormat.TryParseExact | DomTurnMonitor/DomTurnMonitor/ServerWatcher.cs:167-171 | it succeeds exactly when the text reads as a stamp that the calendar accepts, and then gives that stamp |
| DeadlineFormat.EnUsApart | DomTurnMonitor/DomTurnMonitor/ServerWatcher.cs:169 | no two en-US day names, and no two month names, can be read at the same place, so the first match found is the only one |
| DeadlineFormat.ParseComplete | DomTurnMonitor/DomTurnMonitor/ServerWatcher.cs:167-171 | for tables with that property, every spelling of a stamp reads as that stamp |
| DeadlineFormat.ParseSound | DomTurnMonitor/DomTurnMonitor/ServerWatcher.cs:167-171 | a text that reads as a stamp is a spelling of it, with the fields where the format puts them |
| DeadlineFormat.DeadlineComplete | DomTurnMonitor/DomTurnMonitor/ServerWatcher.cs:167-171 | every en-US spelling of a stamp reads as the stamp: two-digit hour and minute, ` GMT on `, names in any letter case, a day of one or two digits |
| DeadlineFormat.DeadlineSound | DomTurnMonitor/DomTurnMonitor/ServerWatcher.cs:167-171 | a text that reads as a stamp in en-US is one of its spellings, so anything else is rejected |
| DeadlineFormat.DeadlineRoundTrip | DomTurnMonitor/DomTurnMonitor/ServerWatcher.cs:167-171 | the rendering of a stamp reads back as the stamp |
| Watcher.IntParse | DomTurnMonitor/DomTurnMonitor/ServerWatcher.cs:192 | a digit run that `int.Parse` accepts gives a value from 0 to `Int32.MaxValue` |
| Watcher.IntParseRoundTrip | DomTurnMonitor/DomTurnMonitor/ServerWatcher.cs:192 | `int.Parse` reads back the decimal digits of every value up to `Int32.MaxValue` |
| Watcher.IntParseLeadingZero | DomTurnMonitor/DomTurnMonitor/ServerWatcher.cs:192 | a leading zero does not change what `int.Parse` reads |
| Watcher.ExtractTurnNumber | DomTurnMonitor/DomTurnMonitor/ServerWatcher.cs:178-198 | a returned result is either found with a non-negative number, or not found with -1 |
| Watcher.TurnNumberByOccurrences | DomTurnMonitor/DomTurnMonitor/ServerWatcher.cs:180-197 | with zero or several occurrences of `Turn number `, even with equal numbers, it returns (false, -1). With exactly one, it throws a format error on an empty digit run, throws an overflow on a value above `Int32.MaxValue`, and otherwise returns (true, the run's value) |
| Watcher.ExtractHostingTime | DomTurnMonitor/DomTurnMonitor/ServerWatcher.cs:151-176 | a stamp found is in range and accepted by the calendar |
| Watcher.HostingTimeByLines | DomTurnMonitor/DomTurnMonitor/ServerWatcher.cs:153-171 | without exactly one LF-terminated line that holds `Next turn due: `, it returns false. With one, it throws where fewer than two characters (Unicode scalar values) follow the marker; otherwise it parses what follows with its last two characters dropped |
| Watcher.DueHitFromLine | DomTurnMonitor/DomTurnMonitor/ServerWatcher.cs:155-164 | every capture is the rest of one of the lines after the marker |
| Watcher.ExtractRaceInfo | DomTurnMonitor/DomTurnMonitor/ServerWatcher.cs:200-219 | the dictionary filled by the loop over the matches is the fold over the matches, in order |
| Watcher.RaceTable | DomTurnMonitor/DomTurnMonitor/ServerWatcher.cs:206-216 | the dictionary the `foreach` builds: the last row, where it has its two groups, sets its trimmed name to whether its status is `2h file received`, whatever the rows before set |
| Watcher.RaceTableKeys | DomTurnMonitor/DomTurnMonitor/ServerWatcher.cs:206-218 | the dictionary's keys are exactly the trimmed names of the matched rows |
| Watcher.RaceTableLastWins | DomTurnMonitor/DomTurnMonitor/ServerWatcher.cs:210-214 | each name maps to whether the last row that carries it says `2h file received` |
| Watcher.RaceInfoByLines | DomTurnMonitor/DomTurnMonitor/ServerWatcher.cs:203-214 | the dictionary is built from the race-row lines of the page, in order |
| Watcher.RowStatusFromLine | DomTurnMonitor/DomTurnMonitor/ServerWatcher.cs:203-212 | every matched row's status is `2h file received` or `Waiting for 2h file`; a row with any other status is not matched |
| Watcher.RaceInfoEmpty | DomTurnMonitor/DomTurnMonitor/ServerWatcher.cs:202 | a page without race rows, the empty page among them, gives an empty dictionary |
| Watcher.Report | DomTurnMonitor/DomTurnMonitor/ServerWatcher.cs:84-108 | the task fires at most three events, and ends without an exception exactly when its last event is the race table |
| Watcher.Cycle | DomTurnMonitor/DomTurnMonitor/ServerWatcher.cs:82-108 | the task on a page ends without an exception exactly when its last event reports the race table of that page |
| Watcher.ReportOrder | DomTurnMonitor/DomTurnMonitor/ServerWatcher.cs:84-107 | a cycle that ends normally fires at most one hosting time first, then at most one turn number, then exactly one race table, last |
| Watcher.ReportHostingTime | DomTurnMonitor/DomTurnMonitor/ServerWatcher.cs:85-90 | a hosting-time event is fired if and only if the extractor found a time, and it carries that time |
| Watcher.ReportTurnNumber | DomTurnMonitor/DomTurnMonitor/ServerWatcher.cs:93-99 | a turn-number event is fired if and only if the hosting-time block did not throw and a turn number was found, and it carries that number |
| Watcher.ReportFault | DomTurnMonitor/DomTurnMonitor/ServerWatcher.cs:80-109 | a cycle ends with an exception exactly when one of the first two extractors throws; then no race table is reported, and only a hosting time can have been fired before |
| Watcher.ServerWatcher.constructor | DomTurnMonitor/DomTurnMonitor/ServerWatcher.cs:29-34 | the watcher keeps its game name and starts with its first update under way |
| Watcher.ServerWatcher.Begin | DomTurnMonitor/DomTurnMonitor/ServerWatcher.cs:75-78 | the gate lets a caller through exactly when it was open, and is closed afterwards |
| Watcher.ServerWatcher.Complete | DomTurnMonitor/DomTurnMonitor/ServerWatcher.cs:80-109 | the task fires the cycle's events on the page; the gate is open again exactly when no exception ended the task |
| Watcher.ServerWatcher.Fire | DomTurnMonitor/DomTurnMonitor/ServerWatcher.cs:84-108 | the three blocks fire what the extractors found, in order, and clear the flag only when they all ran |
| Watcher.ServerWatcher.FireTurn | DomTurnMonitor/DomTurnMonitor/ServerWatcher.cs:93-108 | after the hosting-time block: an exception from `ExtractTurnNumber` leaves the flag set and fires nothing more; otherwise it fires the turn number where one was found, then the race table of the page, and clears the flag |
| Watcher.ServerWatcher.Update | DomTurnMonitor/DomTurnMonitor/ServerWatcher.cs:73-111 | with an update under way, it fires nothing and the gate stays closed. Otherwise it runs a whole cycle, and reopens the gate unless an exception ended it |

## Left out

- `GetServerData` (`ServerWatcher.cs:113-149`) is HTTP I/O. The page text it returns, `""` on failure, is a parameter.
- The timer, `UpdateInterval` and `updateTimer_Elapsed` (`ServerWatcher.cs:27`, `:37-54`) are not modelled. They are thin wrappers over `System.Timers.Timer`.
- The concurrency around the gate is not modelled: `async void`, `Task.Run`, and the unsynchronised reads and writes of `performingUpdate`. `Update` is the two steps `Begin` and `Complete` run back to back; an update under way between them is a watcher whose flag is set.
- The event delegates and `EventArgs` classes (`ServerWatcher.cs:13-22`, `:56-71`) are left out. Each notification is an `Event` value in the sequence a cycle returns.
- After an exception, the model stops the cycle and records the fault. What .NET then does with the exception is not modelled. The `await` in the `async void` method rethrows it, and by default .NET treats it as unhandled, which ends the process.
- The `Captures.Count == 1` tests (:160, :187, :208) are not modelled. The captures of a `Match` itself always number one, so the tests always pass. The `Groups.Count` tests are modelled and proved always to pass (`Patterns.AllMatches`).
- Watcher.ExtractHostingTime: strings are sequences of Unicode scalar values, while .NET's `Length` and `Remove` (:166) and the capture of `(.*)` (:155) count UTF-16 code units. A capture that ends in a character outside the Basic Multilingual Plane is therefore cut differently: .NET drops that character's two code units, the model drops it and the character before. A capture of one such character throws `RemoveOutOfRange` only in the model; .NET gives `""` and `TryParseExact` fails without an exception. For text within the Basic Multilingual Plane the two agree.
- Watcher.HostingTimeByLines: states the throw threshold and the two characters dropped in Unicode scalar values, so it is weaker than .NET's behaviour for text outside the Basic Multilingual Plane, for the reason given under `Watcher.ExtractHostingTime`.
- DeadlineFormat.TryParseExact: calendar validity is a parameter, not computed. .NET decides it from the current year, the length of the month and the weekday of the date.
- DeadlineFormat.TryParseExact: the conversion of the parsed UTC time to local time is not modelled. A stamp keeps the fields as written.
- DeadlineFormat.TryParseExact: when the parse fails, the `out` parameter's default `DateTime` is not modelled; failure is `None`.
- DeadlineFormat.NameIndex: .NET keeps the longest matching name; the model keeps the first. For the en-US tables only one name can match at a place (`EnUsApart`), so the two agree.
- The general .NET regular-expression engine is not modelled, only the three fixed patterns. `\d` is restricted to ASCII digits, where .NET also accepts other Unicode decimal digits.
- Name comparison in `TryParseExact` is modelled as case-insensitive for ASCII letters only; culture-aware case folding of other characters is not modelled.
- `int.Parse` is modelled only on the ASCII digit runs that the turn-number pattern captures; its handling of signs and whitespace never comes into play.
- `DomTurnMonitor/DomTurnMonitor/MainPage.xaml.cs` holds UI code with no logic, and is not part of this model.
