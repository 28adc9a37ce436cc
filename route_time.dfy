/** The dashboard's timestamp and duration helpers. The backend writes
    timestamps as `DD/MM/YYYY HH:mm:ss`; the helpers split such a string
    into its six fields, build a local `Date` from them and print parts of
    it. Durations arrive as whole minutes. */
module RouteTime {

  import opened Wrappers
  import opened JsStrings
  import opened JsNumbers
  import opened Calendar

  /** The arguments `new Date(year, month - 1, day, hour, minute, second)`
      receives, each truncated toward zero as the constructor does.
      `monthIndex` is already `month - 1`. */
  datatype DateTime = DateTime(day: int, monthIndex: int, year: int, hour: int, minute: int, second: int)

  /** What splitting a timestamp gives: no time part at all (the source
      then calls `split` on `undefined` and throws), a field that is not a
      finite number (an Invalid Date), or six integer fields. */
  datatype Parsed = MissingTime | InvalidDate | Fields(dt: DateTime)

  /** What a formatter returns: a text, a thrown TypeError, or a result
      that depends on `Date` normalising out-of-range fields, which this
      model does not compute. */
  datatype Shown = Text(text: string) | Throws | Unmodelled

  /** Truncation toward zero (ToIntegerOrInfinity on a finite number). */
  function Trunc(x: real): (i: int)
    ensures x >= 0.0 ==> i as real <= x < i as real + 1.0
    ensures x < 0.0 ==> i as real - 1.0 < x <= i as real
  {
    if x >= 0.0 then x.Floor else -((-x).Floor)
  }

  /** Element `i` of the split pieces, as the destructuring assignment
      reads it through `map(Number)`; a missing element is `undefined`,
      which the `Date` constructor reads as NaN. */
  function Arg(parts: seq<string>, i: nat): JsNumber {
    if i < |parts| then ToNumber(parts[i]) else NaN
  }

  /** The `Date` constructor on six number arguments: any NaN or infinite
      argument gives an Invalid Date, otherwise each is truncated. */
  function FromArgs(day: JsNumber, monthIndex: JsNumber, year: JsNumber,
                    hour: JsNumber, minute: JsNumber, second: JsNumber): (p: Parsed)
    ensures !p.MissingTime?
    ensures p.InvalidDate? <==>
      !(day.Finite? && monthIndex.Finite? && year.Finite? && hour.Finite? && minute.Finite? && second.Finite?)
  {
    if day.Finite? && monthIndex.Finite? && year.Finite? && hour.Finite? && minute.Finite? && second.Finite? then
      Fields(DateTime(Trunc(day.value), Trunc(monthIndex.value), Trunc(year.value),
                      Trunc(hour.value), Trunc(minute.value), Trunc(second.value)))
    else InvalidDate
  }

  /** `parseDate`: split on the space, the date on `/` into day, month,
      year and the time on `:` into hour, minute, second. */
  function ParseDateTime(s: string): (p: Parsed)
    ensures p.MissingTime? <==> ' ' !in s
  {
    var halves := Split(s, ' ');
    if |halves| == 1 then MissingTime
    else
      var date := Split(halves[0], '/');
      var time := Split(halves[1], ':');
      FromArgs(Arg(date, 0), Arg(date, 1).Decrement(), Arg(date, 2),
               Arg(time, 0), Arg(time, 1), Arg(time, 2))
  }

  /** Years 0 to 99 passed to the `Date` constructor mean 1900 to 1999. */
  function EffectiveYear(year: int): int {
    if 0 <= year <= 99 then 1900 + year else year
  }

  /** The years a `Date` holds in full. */
  const MinYear: int := -271820
  const MaxYear: int := 275759

  function CalendarDay(dt: DateTime): Day {
    Day(EffectiveYear(dt.year), dt.monthIndex, dt.day)
  }

  /** The fields name a real local moment directly: `Date` keeps them as
      they are, with no carrying into a neighbouring field. */
  predicate InRange(dt: DateTime) {
    MinYear <= EffectiveYear(dt.year) <= MaxYear
    && ValidDay(CalendarDay(dt))
    && 0 <= dt.hour < 24 && 0 <= dt.minute < 60 && 0 <= dt.second < 60
  }

  /** Fields the backend can write with unsigned digits. */
  predicate Writable(dt: DateTime) {
    dt.day >= 0 && dt.monthIndex >= 0 && dt.year >= 0
    && dt.hour >= 0 && dt.minute >= 0 && dt.second >= 0
  }

  function Pad(n: nat, width: nat): string {
    PadStart(NatToString(n), width)
  }

  /** The backend's `DD/MM/YYYY HH:mm:ss` form of a moment. */
  function Render(dt: DateTime): string
    requires Writable(dt)
  {
    Triple(dt.day, 2, dt.monthIndex + 1, 2, dt.year, 4, '/') + " "
    + Triple(dt.hour, 2, dt.minute, 2, dt.second, 2, ':')
  }

  lemma TruncNat(n: nat)
    ensures Trunc(n as real) == n && Trunc((n + 1) as real - 1.0) == n
  {
  }

  lemma PadHasNo(n: nat, width: nat, c: char)
    requires !IsDigit(c)
    ensures c !in Pad(n, width) && AllDigits(Pad(n, width))
  {
    PaddedValue(n, width);
  }

  /** A field the backend wrote reads back as the number written. */
  lemma PadReads(n: nat, width: nat)
    ensures ToNumber(Pad(n, width)) == Finite(n as real)
  {
    ToNumberOfPadded(n, width);
  }

  /** Three separator-free pieces joined by `sep` split back into them. */
  lemma SplitThree(a: string, b: string, c: string, sep: char)
    requires sep !in a && sep !in b && sep !in c
    ensures Split(a + [sep] + b + [sep] + c, sep) == [a, b, c]
  {
    assert [a, b, c][1..] == [b, c] && [b, c][1..] == [c];
    assert Join([b, c], sep) == b + [sep] + c;
    assert Join([a, b, c], sep) == a + [sep] + b + [sep] + c;
    SplitJoin([a, b, c], sep);
  }

  /** Three zero-padded numbers joined by a non-digit separator. */
  function Triple(x: nat, wx: nat, y: nat, wy: nat, z: nat, wz: nat, sep: char): string {
    Pad(x, wx) + [sep] + Pad(y, wy) + [sep] + Pad(z, wz)
  }

  lemma TripleHasNo(x: nat, wx: nat, y: nat, wy: nat, z: nat, wz: nat, sep: char, c: char)
    requires !IsDigit(sep) && !IsDigit(c) && c != sep
    ensures c !in Triple(x, wx, y, wy, z, wz, sep)
  {
    PadHasNo(x, wx, c);
    PadHasNo(y, wy, c);
    PadHasNo(z, wz, c);
  }

  /** Each of three padded fields reads back as its number. */
  lemma TripleReads(x: nat, wx: nat, y: nat, wy: nat, z: nat, wz: nat, sep: char)
    requires !IsDigit(sep)
    ensures var parts := Split(Triple(x, wx, y, wy, z, wz, sep), sep);
      Arg(parts, 0) == Finite(x as real) && Arg(parts, 1) == Finite(y as real) && Arg(parts, 2) == Finite(z as real)
  {
    PadHasNo(x, wx, sep);
    PadHasNo(y, wy, sep);
    PadHasNo(z, wz, sep);
    SplitThree(Pad(x, wx), Pad(y, wy), Pad(z, wz), sep);
    PadReads(x, wx);
    PadReads(y, wy);
    PadReads(z, wz);
  }

  /** The `Date` constructor keeps whole non-negative arguments as they are. */
  lemma FromWholeArgs(dt: DateTime)
    requires Writable(dt)
    ensures FromArgs(Finite(dt.day as real), Finite((dt.monthIndex + 1) as real).Decrement(), Finite(dt.year as real),
                     Finite(dt.hour as real), Finite(dt.minute as real), Finite(dt.second as real)) == Fields(dt)
  {
    TruncNat(dt.day);
    TruncNat(dt.monthIndex);
    TruncNat(dt.year);
    TruncNat(dt.hour);
    TruncNat(dt.minute);
    TruncNat(dt.second);
  }

  /** A date and a time, neither holding a space, joined by one space are
      parsed piece by piece. */
  lemma ParseJoined(date: string, time: string)
    requires ' ' !in date && ' ' !in time
    ensures ParseDateTime(date + " " + time) ==
      var ds, ts := Split(date, '/'), Split(time, ':');
      FromArgs(Arg(ds, 0), Arg(ds, 1).Decrement(), Arg(ds, 2), Arg(ts, 0), Arg(ts, 1), Arg(ts, 2))
  {
    assert [date, time][1..] == [time];
    SplitJoin([date, time], ' ');
    assert Split(date + " " + time, ' ') == [date, time];
  }

  /** Parsing a well-formed backend timestamp gives back its day, month,
      year, hour, minute and second, in that order. */
  lemma ParseRender(dt: DateTime)
    requires Writable(dt)
    ensures ParseDateTime(Render(dt)) == Fields(dt)
  {
    var date := Triple(dt.day, 2, dt.monthIndex + 1, 2, dt.year, 4, '/');
    var time := Triple(dt.hour, 2, dt.minute, 2, dt.second, 2, ':');
    RenderParts(dt, date, time);
    DateReads(dt, date);
    TimeReads(dt, time);
    FromWholeArgs(dt);
  }

  /** A rendered timestamp parses as the `Date` built from its pieces. */
  lemma RenderParts(dt: DateTime, date: string, time: string)
    requires Writable(dt)
    requires date == Triple(dt.day, 2, dt.monthIndex + 1, 2, dt.year, 4, '/')
    requires time == Triple(dt.hour, 2, dt.minute, 2, dt.second, 2, ':')
    ensures ParseDateTime(Render(dt)) ==
      var ds, ts := Split(date, '/'), Split(time, ':');
      FromArgs(Arg(ds, 0), Arg(ds, 1).Decrement(), Arg(ds, 2), Arg(ts, 0), Arg(ts, 1), Arg(ts, 2))
  {
    assert Render(dt) == date + " " + time;
    assert ' ' !in date && ' ' !in time by {
      TripleHasNo(dt.day, 2, dt.monthIndex + 1, 2, dt.year, 4, '/', ' ');
      TripleHasNo(dt.hour, 2, dt.minute, 2, dt.second, 2, ':', ' ');
    }
    ParseJoined(date, time);
  }

  /** The date half reads back as day, month and year. */
  lemma DateReads(dt: DateTime, date: string)
    requires Writable(dt)
    requires date == Triple(dt.day, 2, dt.monthIndex + 1, 2, dt.year, 4, '/')
    ensures var ds := Split(date, '/');
      Arg(ds, 0) == Finite(dt.day as real) && Arg(ds, 1) == Finite((dt.monthIndex + 1) as real)
      && Arg(ds, 2) == Finite(dt.year as real)
  {
    TripleReads(dt.day, 2, dt.monthIndex + 1, 2, dt.year, 4, '/');
  }

  /** The time half reads back as hour, minute and second. */
  lemma TimeReads(dt: DateTime, time: string)
    requires Writable(dt)
    requires time == Triple(dt.hour, 2, dt.minute, 2, dt.second, 2, ':')
    ensures var ts := Split(time, ':');
      Arg(ts, 0) == Finite(dt.hour as real) && Arg(ts, 1) == Finite(dt.minute as real)
      && Arg(ts, 2) == Finite(dt.second as real)
  {
    TripleReads(dt.hour, 2, dt.minute, 2, dt.second, 2, ':');
  }

  // ---------------------------------------------------------------- durations

  /** `formatHours`: under an hour, `<n>mns`; otherwise `<h>h`, followed by
      `<m>mns` when the minutes left over are not zero. */
  function FormatHours(minutes: int): (r: string)
    ensures |r| > 0
    ensures minutes < 60 <==> 'h' !in r
    ensures r[|r| - 1] == 'h' <==> minutes >= 60 && minutes % 60 == 0
  {
    if minutes < 60 then
      var n := IntToString(minutes);
      assert 'h' !in n by { assert forall k :: 0 <= k < |n| ==> n[k] != 'h'; }
      n + "mns"
    else
      var hours := NatToString(minutes / 60);
      assert (hours + "h")[|hours|] == 'h';
      if minutes % 60 > 0 then hours + "h" + NatToString(minutes % 60) + "mns" else hours + "h"
  }

  /** Reads a duration label back into minutes. */
  function ReadDuration(s: string): Option<int> {
    if s != "" && s[|s| - 1] == 'h' then
      var hs := s[..|s| - 1];
      if hs != "" && AllDigits(hs) then Some(60 * DigitsValue(hs)) else None
    else if |s| >= 3 && s[|s| - 3..] == "mns" then
      var parts := Split(s[..|s| - 3], 'h');
      if |parts| == 1 then ReadInt(parts[0])
      else if |parts| == 2 && parts[0] != "" && AllDigits(parts[0]) && parts[1] != "" && AllDigits(parts[1]) then
        Some(60 * DigitsValue(parts[0]) + DigitsValue(parts[1]))
      else None
    else None
  }

  lemma NoLetterInNumber(n: nat, c: char)
    requires !IsDigit(c)
    ensures c !in NatToString(n)
  {
  }

  /** Under an hour the label is the signed number of minutes. */
  lemma ShortRoundTrip(minutes: int)
    requires minutes < 60
    ensures FormatHours(minutes) == IntToString(minutes) + "mns"
    ensures ReadDuration(FormatHours(minutes)) == Some(minutes)
  {
    var r := FormatHours(minutes);
    var n := IntToString(minutes);
    assert r == n + "mns";
    assert r[|r| - 1] == 's';
    assert r[|r| - 3..] == "mns" && r[..|r| - 3] == n;
    assert 'h' !in n by { assert forall k :: 0 <= k < |n| ==> n[k] != 'h'; }
    IntToStringRoundTrip(minutes);
  }

  /** Whole hours: the label is the number of hours and `h`. */
  lemma WholeHoursRoundTrip(minutes: int)
    requires minutes >= 60 && minutes % 60 == 0
    ensures ReadDuration(FormatHours(minutes)) == Some(minutes)
  {
    var r := FormatHours(minutes);
    var hs := NatToString(minutes / 60);
    assert r == hs + "h";
    assert r[..|r| - 1] == hs;
    NatToStringRoundTrip(minutes / 60);
  }

  /** Hours and minutes: the two numbers around the `h`. */
  lemma MixedRoundTrip(minutes: int)
    requires minutes >= 60 && minutes % 60 != 0
    ensures ReadDuration(FormatHours(minutes)) == Some(minutes)
  {
    var r := FormatHours(minutes);
    var h, m := minutes / 60, minutes % 60;
    var hs, ms := NatToString(h), NatToString(m);
    assert r == hs + "h" + ms + "mns";
    assert r[|r| - 1] == 's';
    NatToStringRoundTrip(h);
    NatToStringRoundTrip(m);
    NoLetterInNumber(h, 'h');
    NoLetterInNumber(m, 'h');
    assert [hs, ms][1..] == [ms];
    assert r[|r| - 3..] == "mns" && r[..|r| - 3] == Join([hs, ms], 'h');
    SplitJoin([hs, ms], 'h');
  }

  /** A duration label loses nothing: reading it back gives the minutes. */
  lemma FormatHoursRoundTrip(minutes: int)
    ensures ReadDuration(FormatHours(minutes)) == Some(minutes)
  {
    if minutes < 60 {
      ShortRoundTrip(minutes);
    } else if minutes % 60 == 0 {
      WholeHoursRoundTrip(minutes);
    } else {
      MixedRoundTrip(minutes);
    }
  }

  /** Different durations never share a label. */
  lemma FormatHoursInjective(a: int, b: int)
    ensures FormatHours(a) == FormatHours(b) ==> a == b
  {
    FormatHoursRoundTrip(a);
    FormatHoursRoundTrip(b);
  }

  /** From an hour up, the label shows whole hours and the minutes under an
      hour left over, and these add back up to the duration. */
  lemma FormatHoursParts(minutes: int)
    requires minutes >= 60
    ensures exists h: nat, m: nat :: ShowsParts(minutes, h, m)
  {
    var h: nat, m: nat := minutes / 60, minutes % 60;
    assert ShowsParts(minutes, h, m);
  }

  /** `h` hours and `m` minutes under an hour make up the duration, and the
      label shows them. */
  predicate ShowsParts(minutes: int, h: nat, m: nat) {
    m < 60 && 60 * h + m == minutes
    && FormatHours(minutes) == NatToString(h) + "h" + (if m == 0 then "" else NatToString(m) + "mns")
  }

  // ------------------------------------------------------------ clock times

  const MonthNames: seq<string> := ["Jan", "Feb", "Mar", "Apr", "May", "Jun", "Jul", "Aug", "Sep", "Oct", "Nov", "Dec"]

  const DayNames: seq<string> := ["SUN", "MON", "TUE", "WED", "THU", "FRI", "SAT"]

  function Meridiem(hour: int): string {
    if hour >= 12 then "PM" else "AM"
  }

  /** The hour on a 12-hour clock face (`hours % 12 || 12`). */
  function Clock12(hour: int): (h: nat)
    requires 0 <= hour < 24
    ensures 1 <= h <= 12
    ensures hour == 0 ==> h == 12
    ensures 1 <= hour <= 12 ==> h == hour
    ensures 13 <= hour ==> h == hour - 12
    ensures (if Meridiem(hour) == "AM" then h % 12 else h % 12 + 12) == hour
  {
    if hour % 12 == 0 then 12 else hour % 12
  }

  /** `formatMonth` on a parsed, in-range moment, `Mon D, h:mm AM`: the
      month's short name, the day without padding, the hour on a 12-hour
      clock, the minutes in two digits and the half of the day. */
  function MonthText(dt: DateTime): string
    requires InRange(dt)
  {
    MonthNames[dt.monthIndex] + " " + NatToString(dt.day) + ", "
    + NatToString(Clock12(dt.hour)) + ":" + Pad(dt.minute, 2) + " " + Meridiem(dt.hour)
  }

  /** What `formatMonth` prints for an Invalid Date: the month name is
      `undefined`, the numbers NaN, and `NaN % 12 || 12` is 12. */
  const InvalidMonthText: string := "undefined NaN, 12:NaN AM"

  /** `formatMonth`: a missing or empty input gives the empty string. */
  function FormatMonth(arrival: Option<string>): (r: Shown)
    ensures arrival.None? || arrival == Some("") ==> r == Text("")
    ensures arrival.Some? && ' ' !in arrival.value && arrival.value != "" ==> r.Throws?
  {
    if arrival.None? || arrival.value == "" then Text("")
    else
      match ParseDateTime(arrival.value)
      case MissingTime => Throws
      case InvalidDate => Text(InvalidMonthText)
      case Fields(dt) => if InRange(dt) then Text(MonthText(dt)) else Unmodelled
  }

  /** On a well-formed backend timestamp, `formatMonth` prints the month's
      name, the day as written, the hour on a 12-hour clock and the minutes
      in two digits. */
  lemma FormatMonthOfRender(dt: DateTime)
    requires Writable(dt) && InRange(dt)
    ensures FormatMonth(Some(Render(dt))) == Text(MonthText(dt))
  {
    ParseRender(dt);
  }

  /** `formatStartTime`. `clock` stands for the locale library's
      `toLocaleTimeString("en-US", …).toUpperCase()` with `hour: "numeric"`
      (`9:05 AM`) on a valid date; on an Invalid Date that call gives
      `INVALID DATE`. */
  function FormatStartTime(start: Option<string>, clock: DateTime -> string): (r: Shown)
    ensures start.None? || start == Some("") ==> r == Text("")
    ensures start.Some? && ' ' !in start.value && start.value != "" ==> r.Throws?
  {
    if start.None? || start.value == "" then Text("")
    else
      match ParseDateTime(start.value)
      case MissingTime => Throws
      case InvalidDate => Text("INVALID DATE")
      case Fields(dt) => if InRange(dt) then Text(clock(dt)) else Unmodelled
  }

  /** On a well-formed timestamp the locale library is asked about exactly
      the moment written. */
  lemma FormatStartTimeOfRender(dt: DateTime, clock: DateTime -> string)
    requires Writable(dt) && InRange(dt)
    ensures FormatStartTime(Some(Render(dt)), clock) == Text(clock(dt))
  {
    ParseRender(dt);
    StartTimeOfFields(Render(dt), dt, clock);
  }

  lemma StartTimeOfFields(s: string, dt: DateTime, clock: DateTime -> string)
    requires ParseDateTime(s) == Fields(dt) && InRange(dt)
    ensures FormatStartTime(Some(s), clock) == Text(clock(dt))
  {
    assert ' ' in s;
  }

  /** The weekday name `dayNames[date.getDay()]`, and the time, of one end
      of an interval; `undefined` and `INVALID DATE` for an Invalid Date. */
  function DayLabel(p: Parsed): string
    requires p.Fields? ==> InRange(p.dt)
  {
    if p.Fields? then DayNames[Weekday(CalendarDay(p.dt))] else "undefined"
  }

  function TimeLabel(p: Parsed, clock: DateTime -> string): string {
    if p.Fields? then clock(p.dt) else "INVALID DATE"
  }

  /** `formatFullDateTime`: `<startDay> <startTime> - <endDay> <endTime>`;
      its third parameter is unused in the source and is dropped here.
      `clock` stands for the locale library with `hour: "2-digit"`
      (`09:05 AM`), a different function from `FormatStartTime`'s. */
  function FormatFullDateTime(start: string, end: string, clock: DateTime -> string): (r: Shown)
    ensures r.Throws? <==> ' ' !in start || ' ' !in end
  {
    var s := ParseDateTime(start);
    if s.MissingTime? then Throws
    else
      var e := ParseDateTime(end);
      if e.MissingTime? then Throws
      else if (s.Fields? && !InRange(s.dt)) || (e.Fields? && !InRange(e.dt)) then Unmodelled
      else Text(DayLabel(s) + " " + TimeLabel(s, clock) + " - " + DayLabel(e) + " " + TimeLabel(e, clock))
  }

  /** On two well-formed timestamps the interval names the weekday of each
      date from the SUN..SAT table and the locale time of each moment. */
  lemma FullDateTimeOfRender(a: DateTime, b: DateTime, clock: DateTime -> string)
    requires Writable(a) && InRange(a) && Writable(b) && InRange(b)
    ensures FormatFullDateTime(Render(a), Render(b), clock) == Text(
      DayNames[Weekday(CalendarDay(a))] + " " + clock(a) + " - " + DayNames[Weekday(CalendarDay(b))] + " " + clock(b))
  {
    ParseRender(a);
    ParseRender(b);
  }

  /** Years written as 0 to 99 are shown with the weekdays of 1900 to 1999. */
  lemma TwoDigitYears(a: DateTime, b: DateTime, clock: DateTime -> string)
    requires Writable(a) && InRange(a) && a.year <= 99
    requires Writable(b) && InRange(b) && b.year <= 99
    ensures ValidDay(Day(1900 + a.year, a.monthIndex, a.day))
    ensures ValidDay(Day(1900 + b.year, b.monthIndex, b.day))
    ensures FormatFullDateTime(Render(a), Render(b), clock) == Text(
      DayNames[Weekday(Day(1900 + a.year, a.monthIndex, a.day))] + " " + clock(a) + " - "
      + DayNames[Weekday(Day(1900 + b.year, b.monthIndex, b.day))] + " " + clock(b))
  {
    assert CalendarDay(a) == Day(1900 + a.year, a.monthIndex, a.day);
    assert CalendarDay(b) == Day(1900 + b.year, b.monthIndex, b.day);
    FullDateTimeOfRender(a, b, clock);
  }

  /** A timestamp whose day field is not a number makes an Invalid Date. */
  lemma NonNumericDay(d: string, rest: string, time: string)
    requires '/' !in d && ' ' !in d && ' ' !in rest && ' ' !in time
    requires !ToNumber(d).Finite?
    ensures ParseDateTime(d + "/" + rest + " " + time) == InvalidDate
  {
    var date := d + "/" + rest;
    assert Split(date, '/')[0] == d by {
      IndexOfFirst(date, '/', |d|);
      assert date[..|d|] == d;
    }
    ParseJoined(date, time);
  }

  /** `formatMonth` prints an Invalid Date with `undefined` and NaN. */
  lemma InvalidMonthShown(s: string)
    requires ParseDateTime(s) == InvalidDate
    ensures FormatMonth(Some(s)) == Text(InvalidMonthText)
  {
    assert s != "" by { assert ' ' in s; }
  }

  /** The locale clock prints an Invalid Date as `INVALID DATE`. */
  lemma InvalidStartShown(s: string, clock: DateTime -> string)
    requires ParseDateTime(s) == InvalidDate
    ensures FormatStartTime(Some(s), clock) == Text("INVALID DATE")
  {
    assert s != "" by { assert ' ' in s; }
  }

  /** `formatFullDateTime` names the weekday of an Invalid Date `undefined`. */
  lemma InvalidFullShown(s: string, clock: DateTime -> string)
    requires ParseDateTime(s) == InvalidDate
    ensures FormatFullDateTime(s, s, clock)
         == Text("undefined" + " " + "INVALID DATE" + " - " + "undefined" + " " + "INVALID DATE")
  {
    assert ' ' in s;
  }
}
