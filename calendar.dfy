/** The proleptic Gregorian calendar that JavaScript's `Date` uses:
    month lengths, leap years and the day of the week (`getDay`, 0 being
    Sunday). Months are 0-based, as `Date` numbers them. */
module Calendar {

  predicate IsLeapYear(y: int) {
    y % 4 == 0 && (y % 100 != 0 || y % 400 == 0)
  }

  function DaysInMonth(year: int, month0: int): (n: nat)
    requires 0 <= month0 < 12
    ensures 28 <= n <= 31
    ensures month0 == 1 ==> (n == 29 <==> IsLeapYear(year))
  {
    if month0 == 1 then (if IsLeapYear(year) then 29 else 28)
    else if month0 == 3 || month0 == 5 || month0 == 8 || month0 == 10 then 30
    else 31
  }

  datatype Day = Day(year: int, month0: int, day: int)

  predicate ValidDay(d: Day) {
    0 <= d.month0 < 12 && 1 <= d.day <= DaysInMonth(d.year, d.month0)
  }

  /** The day after `d`, rolling over month and year ends. */
  function NextDay(d: Day): (n: Day)
    requires ValidDay(d)
    ensures ValidDay(n)
  {
    if d.day < DaysInMonth(d.year, d.month0) then Day(d.year, d.month0, d.day + 1)
    else if d.month0 < 11 then Day(d.year, d.month0 + 1, 1)
    else Day(d.year + 1, 0, 1)
  }

  /** Per-month offsets of Sakamoto's day-of-week formula. */
  const MonthOffset: seq<int> := [0, 3, 2, 5, 0, 3, 5, 1, 4, 6, 2, 4]

  /** The whole-year term of Sakamoto's day count, with floor division:
      `y + y/4 - y/100 + y/400`. */
  function YearShift(y: int): int {
    y + y / 4 - y / 100 + y / 400
  }

  /** Sakamoto's day count; only its remainder modulo 7 matters. */
  function DayCount(d: Day): int
    requires ValidDay(d)
  {
    var y := if d.month0 < 2 then d.year - 1 else d.year;
    YearShift(y) + MonthOffset[d.month0] + d.day
  }

  /** The weekday of a day, 0 for Sunday to 6 for Saturday, as `getDay` gives it. */
  function Weekday(d: Day): (w: nat)
    requires ValidDay(d)
    ensures w < 7
  {
    DayCount(d) % 7
  }

  /** Floor division by a constant steps up by one exactly at its multiples. */
  lemma DivSteps(y: int)
    ensures y / 4 - (y - 1) / 4 == if y % 4 == 0 then 1 else 0
    ensures y / 100 - (y - 1) / 100 == if y % 100 == 0 then 1 else 0
    ensures y / 400 - (y - 1) / 400 == if y % 400 == 0 then 1 else 0
  {
  }

  lemma MultipleOf(k: int)
    ensures (400 * k) % 100 == 0 && (100 * k) % 4 == 0
  {
  }

  /** Multiples of 400 are multiples of 100, and those of 100 are of 4. */
  lemma Multiples(y: int)
    ensures y % 400 == 0 ==> y % 100 == 0
    ensures y % 100 == 0 ==> y % 4 == 0
  {
    if y % 400 == 0 {
      MultipleOf(y / 400);
      assert y == 400 * (y / 400);
    }
    if y % 100 == 0 {
      MultipleOf(y / 100);
      assert y == 100 * (y / 100);
    }
  }

  /** From one March to the next the day count grows by 365 or, in a leap
      year, 366 days, which is 1 or 2 modulo 7. */
  lemma YearShiftStep(y: int)
    ensures YearShift(y) - YearShift(y - 1) == if IsLeapYear(y) then 2 else 1
  {
    DivSteps(y);
    Multiples(y);
  }

  /** Successive days have successive weekdays: the table of weekday names
      advances by one, wrapping from SAT to SUN. */
  lemma {:induction false} WeekdayOfNextDay(d: Day)
    requires ValidDay(d)
    ensures Weekday(NextDay(d)) == (Weekday(d) + 1) % 7
  {
    var n := NextDay(d);
    var c := DayCount(d);
    var q: int;
    if d.day < DaysInMonth(d.year, d.month0) {
      q := 0;
    } else {
      if d.month0 == 1 {
        YearShiftStep(d.year);
      }
      q := if d.month0 == 3 || d.month0 == 6 || d.month0 == 9 || d.month0 == 11 then -5 else -4;
    }
    assert DayCount(n) == c + 1 + 7 * q;
    ShiftMod7(c, q);
  }

  lemma ShiftMod7(c: int, q: int)
    ensures (c + 1 + 7 * q) % 7 == (c % 7 + 1) % 7
  {
    var r := c % 7;
    assert c == 7 * (c / 7) + r;
    assert c + 1 + 7 * q == 7 * (c / 7 + q) + (r + 1);
  }

  /** The first day of the Unix epoch, 1 January 1970, was a Thursday. */
  lemma EpochIsThursday()
    ensures Weekday(Day(1970, 0, 1)) == 4
  {
  }
}
