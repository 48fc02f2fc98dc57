/**
 * The lexical part of `DateTime.TryParseExact(s, "HH:mm GMT on dddd MMMM d",
 * en-US, DateTimeStyles.None)`, the way the hosting time is read.
 *
 * The format reads, in order and with nothing skipped: exactly two ASCII
 * digits of hour, `:`, exactly two digits of minute, the fixed text
 * ` GMT on ` (each character as it is: `GMT` is recognised in the format
 * and matched ordinally), a full weekday name, a space, a full month name,
 * a space, and one or two digits of day, which must end the text. The
 * names come from the culture's tables and are compared without regard to
 * the case of ASCII letters. The hour must be below 24 and the minute
 * below 60.
 *
 * The parse is written for any pair of name tables and proved for any
 * pair in which no two names can be read at the same place; the en-US
 * tables are such a pair.
 *
 * What the calendar decides (the year, which .NET takes from the clock;
 * whether the day exists in that month and falls on the named weekday) is
 * a parameter of `TryParseExact`.
 */
module DeadlineFormat {
  import opened Wrappers
  import opened Strings

  /** The full weekday names of en-US, indexed as `DayOfWeek` (Sunday is 0). */
  const DayNames: seq<string> := ["Sunday", "Monday", "Tuesday", "Wednesday", "Thursday", "Friday", "Saturday"]

  /** The full month names of en-US; month `m` is `MonthNames[m - 1]`. */
  const MonthNames: seq<string> :=
    ["January", "February", "March", "April", "May", "June",
     "July", "August", "September", "October", "November", "December"]

  /** The fixed text between the minute and the weekday name. */
  const GmtOn := " GMT on "

  /** What the format reads from a text: the time is in UTC and no year is given. */
  datatype Stamp = Stamp(hour: nat, minute: nat, weekday: nat, month: nat, day: nat)

  /** The values that the format can read with tables of `days` and `months` names. */
  predicate Fits(st: Stamp, days: nat, months: nat) {
    st.hour < 24 && st.minute < 60 && st.weekday < days && 1 <= st.month <= months && st.day < 100
  }

  /** The values that the format can read in en-US: a day has one or two digits, a month is 1 to 12. */
  predicate InRange(st: Stamp) {
    Fits(st, 7, 12)
  }

  /** `name` is written at position `p` of `t`, in any mixture of letter case. */
  predicate NameAt(t: string, p: nat, name: string) {
    p + |name| <= |t| && SameLetters(t[p..p + |name|], name)
  }

  /** No two of `names` can be written at the same place of any text. */
  ghost predicate Apart(names: seq<string>) {
    forall t, p, a, b :: 0 <= a < |names| && 0 <= b < |names| && NameAt(t, p, names[a]) && NameAt(t, p, names[b]) ==> a == b
  }

  /**
   * The first of `names` from index `i` on that is written at `p`. .NET
   * keeps the longest name that matches; where the names are `Apart`, as the
   * en-US ones are (`EnUsApart`), the first one found is the only one.
   */
  function NameIndex(t: string, p: nat, names: seq<string>, i: nat): (r: Option<nat>)
    requires i <= |names|
    ensures r.Some? ==> i <= r.value < |names| && NameAt(t, p, names[r.value])
    ensures r.None? ==> forall k :: i <= k < |names| ==> !NameAt(t, p, names[k])
    decreases |names| - i
  {
    if i == |names| then None
    else if NameAt(t, p, names[i]) then Some(i)
    else NameIndex(t, p, names, i + 1)
  }

  /** The number that the two digits at `i` denote. */
  function Number2(t: string, i: nat): nat
    requires i + 2 <= |t| && IsDigit(t[i]) && IsDigit(t[i + 1])
  {
    10 * DigitValue(t[i]) + DigitValue(t[i + 1])
  }

  /** At most two digits denote a number below 100. */
  lemma DayBelow100(ds: string)
    requires |ds| <= 2 && AllDigits(ds)
    ensures DecimalValue(ds) < 100
  {
    if ds != [] {
      assert AllDigits(ds[..|ds| - 1]);
      if |ds| == 2 {
        assert AllDigits(ds[..1][..0]);
        assert DecimalValue(ds[..1]) < 10;
      }
    }
  }

  /** The hour and minute of `HH:mm`, when the text then goes on with ` GMT on `. */
  function Clock(t: string): (r: Option<(nat, nat)>)
    ensures r.Some? ==> 13 <= |t| && r.value.0 < 24 && r.value.1 < 60
  {
    if |t| < 13 || !IsDigit(t[0]) || !IsDigit(t[1]) || t[2] != ':' || !IsDigit(t[3]) || !IsDigit(t[4]) then None
    else if t[5..13] != GmtOn then None
    else
      var hour, minute := Number2(t, 0), Number2(t, 3);
      if hour >= 24 || minute >= 60 then None else Some((hour, minute))
  }

  /** The day `d`: the space at `q`, then one or two digits that end the text. */
  function DayAfter(t: string, q: nat): (r: Option<nat>)
    ensures r.Some? ==> r.value < 100
  {
    if q >= |t| || t[q] != ' ' then None
    else
      var ds := t[q + 1..];
      if 1 <= |ds| <= 2 && AllDigits(ds) then
        DayBelow100(ds);
        Some(DecimalValue(ds))
      else None
  }

  /** The month and day of ` MMMM d`, from the space at `p` to the end of the text. */
  function MonthDayAfter(t: string, p: nat, months: seq<string>): (r: Option<(nat, nat)>)
    ensures r.Some? ==> 1 <= r.value.0 <= |months| && r.value.1 < 100
  {
    if p >= |t| || t[p] != ' ' then None
    else (
      match NameIndex(t, p + 1, months, 0)
      case None => None
      case Some(m) => (
        match DayAfter(t, p + 1 + |months[m]|)
        case None => None
        case Some(d) => Some((m + 1, d))))
  }

  /** The parse of the format with the name tables `days` and `months`, before any calendar check. */
  function ParseWith(t: string, days: seq<string>, months: seq<string>): (r: Option<Stamp>)
    ensures r.Some? ==> Fits(r.value, |days|, |months|)
  {
    match Clock(t)
    case None => None
    case Some((hour, minute)) => (
      match NameIndex(t, 13, days, 0)
      case None => None
      case Some(w) => (
        match MonthDayAfter(t, 13 + |days[w]|, months)
        case None => None
        case Some((month, day)) => Some(Stamp(hour, minute, w, month, day))))
  }

  /** The parse of the format in en-US, before any calendar check. */
  function Deadline(t: string): (r: Option<Stamp>)
    ensures r.Some? ==> InRange(r.value)
  {
    ParseWith(t, DayNames, MonthNames)
  }

  /**
   * `DateTime.TryParseExact` with the format: the parse succeeds when the
   * text reads as a stamp and the calendar accepts that stamp.
   */
  function TryParseExact(t: string, calendarValid: Stamp -> bool): (r: Option<Stamp>)
    ensures r.Some? <==> Deadline(t).Some? && calendarValid(Deadline(t).value)
    ensures r.Some? ==> r == Deadline(t) && InRange(r.value)
  {
    match Deadline(t)
    case None => None
    case Some(st) => if calendarValid(st) then Some(st) else None
  }

  // ---------------------------------------------------------------------
  // Spelling a stamp, and the parse described by it.

  /** A number below 100 as two digits, as `HH` and `mm` write it. */
  function TwoDigits(n: nat): (ds: string)
    requires n < 100
    ensures |ds| == 2 && AllDigits(ds)
  {
    [DigitChar(n / 10), DigitChar(n % 10)]
  }

  /** The shape of the format, with the texts that fill its fields. */
  function Layout(hh: string, mm: string, weekday: string, month: string, day: string): string {
    hh + ":" + mm + GmtOn + weekday + " " + month + " " + day
  }

  /**
   * `t` spells the stamp `st` with the tables `days` and `months`: it is the
   * format's shape filled with the two-digit hour and minute, the weekday
   * and month names in any letter case, and the day in one or two digits
   * (so a leading zero is allowed).
   */
  predicate SpellsWith(t: string, st: Stamp, days: seq<string>, months: seq<string>, weekday: string, month: string, day: string) {
    && Fits(st, |days|, |months|)
    && SameLetters(weekday, days[st.weekday])
    && SameLetters(month, months[st.month - 1])
    && 1 <= |day| <= 2 && AllDigits(day) && DecimalValue(day) == st.day
    && t == Layout(TwoDigits(st.hour), TwoDigits(st.minute), weekday, month, day)
  }

  /** `t` spells `st` in en-US. */
  predicate Spells(t: string, st: Stamp, weekday: string, month: string, day: string) {
    SpellsWith(t, st, DayNames, MonthNames, weekday, month, day)
  }

  /** The text that formatting `st` with the format in en-US gives. */
  function Render(st: Stamp): string
    requires InRange(st)
  {
    Layout(TwoDigits(st.hour), TwoDigits(st.minute), DayNames[st.weekday], MonthNames[st.month - 1], DecimalDigits(st.day))
  }

  /** The two digits of `TwoDigits(n)` denote `n`. */
  lemma TwoDigitsValue(n: nat)
    requires n < 100
    ensures Number2(TwoDigits(n), 0) == n
  {
  }

  /** Two digits are the rendering of the number they denote. */
  lemma TwoDigitsOf(t: string, i: nat)
    requires i + 2 <= |t| && IsDigit(t[i]) && IsDigit(t[i + 1]) && Number2(t, i) < 100
    ensures t[i..i + 2] == TwoDigits(Number2(t, i))
  {
    var n := Number2(t, i);
    assert DigitChar(DigitValue(t[i])) == t[i];
    assert DigitChar(DigitValue(t[i + 1])) == t[i + 1];
    assert n / 10 == DigitValue(t[i]) && n % 10 == DigitValue(t[i + 1]);
  }

  /** Two names written at the same place agree in the case-folded letters they share. */
  lemma NamesAtSamePlace(t: string, p: nat, x: string, y: string, k: nat)
    requires NameAt(t, p, x) && NameAt(t, p, y) && k < |x| && k < |y|
    ensures Lower(x[k]) == Lower(y[k])
  {
    assert t[p..p + |x|][k] == t[p + k] == t[p..p + |y|][k];
  }

  /** No two weekday names can be written at the same place: their first two letters differ. */
  lemma DayNamesApart(t: string, p: nat, a: nat, b: nat)
    requires a < |DayNames| && b < |DayNames| && NameAt(t, p, DayNames[a]) && NameAt(t, p, DayNames[b])
    ensures a == b
  {
    NamesAtSamePlace(t, p, DayNames[a], DayNames[b], 0);
    NamesAtSamePlace(t, p, DayNames[a], DayNames[b], 1);
    assert a == 0 || a == 1 || a == 2 || a == 3 || a == 4 || a == 5 || a == 6;
    assert b == 0 || b == 1 || b == 2 || b == 3 || b == 4 || b == 5 || b == 6;
  }

  /** No two month names can be written at the same place: their first three letters differ. */
  lemma MonthNamesApart(t: string, p: nat, a: nat, b: nat)
    requires a < |MonthNames| && b < |MonthNames| && NameAt(t, p, MonthNames[a]) && NameAt(t, p, MonthNames[b])
    ensures a == b
  {
    NamesAtSamePlace(t, p, MonthNames[a], MonthNames[b], 0);
    NamesAtSamePlace(t, p, MonthNames[a], MonthNames[b], 1);
    NamesAtSamePlace(t, p, MonthNames[a], MonthNames[b], 2);
    assert a == 0 || a == 1 || a == 2 || a == 3 || a == 4 || a == 5 || a == 6 || a == 7 || a == 8 || a == 9 || a == 10 || a == 11;
    assert b == 0 || b == 1 || b == 2 || b == 3 || b == 4 || b == 5 || b == 6 || b == 7 || b == 8 || b == 9 || b == 10 || b == 11;
  }

  /** The en-US tables have 7 and 12 names, no two of which can be read at the same place. */
  lemma EnUsApart()
    ensures |DayNames| == 7 && |MonthNames| == 12
    ensures Apart(DayNames) && Apart(MonthNames)
  {
    forall t, p, a, b | 0 <= a < |DayNames| && 0 <= b < |DayNames| && NameAt(t, p, DayNames[a]) && NameAt(t, p, DayNames[b])
      ensures a == b
    {
      DayNamesApart(t, p, a, b);
    }
    forall t, p, a, b | 0 <= a < |MonthNames| && 0 <= b < |MonthNames| && NameAt(t, p, MonthNames[a]) && NameAt(t, p, MonthNames[b])
      ensures a == b
    {
      MonthNamesApart(t, p, a, b);
    }
  }

  /** Among names that are `Apart`, a name written at `p` is the one found there. */
  lemma NameRead(t: string, p: nat, names: seq<string>, w: nat)
    requires Apart(names) && w < |names| && NameAt(t, p, names[w])
    ensures NameIndex(t, p, names, 0) == Some(w)
  {
  }

  /** A text written at `p` is found there in any letter case it is written in. */
  lemma NameWritten(t: string, p: nat, text: string, name: string)
    requires p + |text| <= |t| && t[p..p + |text|] == text && SameLetters(text, name)
    ensures NameAt(t, p, name)
  {
  }

  /** The clock part of a spelled stamp reads as its hour and minute. */
  lemma ClockOfSpelling(t: string, st: Stamp, days: seq<string>, months: seq<string>, weekday: string, month: string, day: string)
    requires SpellsWith(t, st, days, months, weekday, month, day)
    ensures Clock(t) == Some((st.hour, st.minute))
  {
    var hh, mm := TwoDigits(st.hour), TwoDigits(st.minute);
    assert t[0] == hh[0] && t[1] == hh[1] && t[2] == ':' && t[3] == mm[0] && t[4] == mm[1];
    assert t[5..13] == GmtOn;
    TwoDigitsValue(st.hour);
    TwoDigitsValue(st.minute);
  }

  /** Where the format's shape puts each of the texts that fill it. */
  lemma LayoutPieces(hh: string, mm: string, weekday: string, month: string, day: string)
    requires |hh| == 2 && |mm| == 2
    ensures var t, p := Layout(hh, mm, weekday, month, day), 13 + |weekday|;
      var q := p + 1 + |month|;
      && q < |t| && t[..2] == hh && t[2] == ':' && t[3..5] == mm && t[5..13] == GmtOn
      && t[13..p] == weekday && t[p] == ' ' && t[p + 1..q] == month && t[q] == ' ' && t[q + 1..] == day
  {
    var t, p := Layout(hh, mm, weekday, month, day), 13 + |weekday|;
    var head := hh + ":" + mm + GmtOn;
    var rest := " " + month + " " + day;
    assert t == head + weekday + rest;
    assert t[..13] == head && t[13..p] == weekday && t[p..] == rest;
    assert rest[0] == ' ' && rest[1..1 + |month|] == month && rest[1 + |month|] == ' ' && rest[2 + |month|..] == day;
  }

  /** The date part of a spelled stamp, after the weekday name, reads as its month and day. */
  lemma MonthDayOfSpelling(t: string, st: Stamp, days: seq<string>, months: seq<string>, weekday: string, month: string, day: string)
    requires Apart(months) && SpellsWith(t, st, days, months, weekday, month, day)
    ensures MonthDayAfter(t, 13 + |weekday|, months) == Some((st.month, st.day))
  {
    var p := 13 + |weekday|;
    LayoutPieces(TwoDigits(st.hour), TwoDigits(st.minute), weekday, month, day);
    NameWritten(t, p + 1, month, months[st.month - 1]);
    NameRead(t, p + 1, months, st.month - 1);
  }

  /** With tables whose names are `Apart`, every spelling of a stamp reads as that stamp. */
  lemma ParseComplete(t: string, st: Stamp, days: seq<string>, months: seq<string>, weekday: string, month: string, day: string)
    requires Apart(days) && Apart(months) && SpellsWith(t, st, days, months, weekday, month, day)
    ensures ParseWith(t, days, months) == Some(st)
  {
    ClockOfSpelling(t, st, days, months, weekday, month, day);
    LayoutPieces(TwoDigits(st.hour), TwoDigits(st.minute), weekday, month, day);
    NameWritten(t, 13, weekday, days[st.weekday]);
    NameRead(t, 13, days, st.weekday);
    MonthDayOfSpelling(t, st, days, months, weekday, month, day);
  }

  /** What `Clock` reads is written as two digits, `:`, two digits and ` GMT on `. */
  lemma ClockSound(t: string)
    requires Clock(t).Some?
    ensures var (hour, minute) := Clock(t).value;
      t[2] == ':' && t[5..13] == GmtOn && t[0..2] == TwoDigits(hour) && t[3..5] == TwoDigits(minute)
  {
    TwoDigitsOf(t, 0);
    TwoDigitsOf(t, 3);
  }

  /** What `MonthDayAfter` reads is a space, a month name, a space and the day's digits to the end. */
  lemma MonthDaySound(t: string, p: nat, months: seq<string>)
    requires MonthDayAfter(t, p, months).Some?
    ensures var (month, day) := MonthDayAfter(t, p, months).value;
      var q := p + 1 + |months[month - 1]|;
      && q < |t| && t[p] == ' ' && t[q] == ' '
      && SameLetters(t[p + 1..q], months[month - 1])
      && 1 <= |t[q + 1..]| <= 2 && AllDigits(t[q + 1..]) && DecimalValue(t[q + 1..]) == day
  {
  }

  /** A text cut where the format's fields start and end is the format's shape filled with the pieces. */
  lemma SpellingPieces(t: string, p: nat, q: nat)
    requires 13 <= p < q < |t| && t[2] == ':' && t[5..13] == GmtOn && t[p] == ' ' && t[q] == ' '
    ensures t == Layout(t[0..2], t[3..5], t[13..p], t[p + 1..q], t[q + 1..])
  {
    assert t[..13] == t[0..2] + ":" + t[3..5] + GmtOn;
    assert t[13..] == t[13..p] + " " + t[p + 1..q] + " " + t[q + 1..];
    assert t == t[..13] + t[13..];
  }

  /** A text that reads as a stamp spells it: its fields are where the format puts them. */
  lemma ParseSound(t: string, days: seq<string>, months: seq<string>)
    requires ParseWith(t, days, months).Some?
    ensures var st := ParseWith(t, days, months).value;
      var p := 13 + |days[st.weekday]|;
      var q := p + 1 + |months[st.month - 1]|;
      q < |t| && SpellsWith(t, st, days, months, t[13..p], t[p + 1..q], t[q + 1..])
  {
    var st := ParseWith(t, days, months).value;
    var p := 13 + |days[st.weekday]|;
    var q := p + 1 + |months[st.month - 1]|;
    assert Clock(t) == Some((st.hour, st.minute));
    assert NameIndex(t, 13, days, 0) == Some(st.weekday);
    assert MonthDayAfter(t, p, months) == Some((st.month, st.day));
    ClockSound(t);
    MonthDaySound(t, p, months);
    SpellingPieces(t, p, q);
  }

  // The en-US statements.

  /** Every en-US spelling of a stamp, in any letter case and with or without a leading zero of day, reads as the stamp. */
  lemma DeadlineComplete(t: string, st: Stamp, weekday: string, month: string, day: string)
    requires Spells(t, st, weekday, month, day)
    ensures Deadline(t) == Some(st)
  {
    EnUsApart();
    ParseComplete(t, st, DayNames, MonthNames, weekday, month, day);
  }

  /** A text that reads as a stamp in en-US is one of its spellings. */
  lemma DeadlineSound(t: string)
    requires Deadline(t).Some?
    ensures var st := Deadline(t).value;
      var p := 13 + |DayNames[st.weekday]|;
      var q := p + 1 + |MonthNames[st.month - 1]|;
      q < |t| && Spells(t, st, t[13..p], t[p + 1..q], t[q + 1..])
  {
    ParseSound(t, DayNames, MonthNames);
  }

  /** A stamp's own rendering reads back as the stamp. */
  lemma DeadlineRoundTrip(st: Stamp)
    requires InRange(st)
    ensures Deadline(Render(st)) == Some(st)
  {
    EnUsApart();
    DecimalRoundTrip(st.day);
    ParseComplete(Render(st), st, DayNames, MonthNames, DayNames[st.weekday], MonthNames[st.month - 1], DecimalDigits(st.day));
  }
}
