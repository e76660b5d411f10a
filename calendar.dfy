/** Dates as whole day numbers in local time: day 0 is 1 January 1970, a Thursday.
    This is the part of JavaScript's `Date` the leave engine uses: the day of the week
    (`getDay`, 0 = Sunday ... 6 = Saturday), stepping one day forward (`setDate(getDate() + 1)`)
    and the first day of a month (`new Date(year, month, 1)`, months counted from 0). */
module Calendar {
  type Day = int

  const Sunday := 0
  const Saturday := 6

  /** `getDay()` of day `d`. Euclidean `%` keeps days before 1970 right too. */
  function Weekday(d: Day): (w: int)
    ensures 0 <= w < 7
  {
    (d + 4) % 7
  }

  /** A working day is one that is not a Saturday or a Sunday. */
  predicate IsWorkingDay(d: Day) {
    Weekday(d) != Sunday && Weekday(d) != Saturday
  }

  /** The number of working days in the inclusive range [start, end]; 0 when the range is empty. */
  function WorkingDays(start: Day, end: Day): (n: nat)
    ensures n <= if start <= end then end - start + 1 else 0
    decreases end - start
  {
    if end < start then 0
    else WorkingDays(start, end - 1) + (if IsWorkingDay(end) then 1 else 0)
  }

  /** The days of [start, end] that are working days, as a set. */
  function WorkingDaySet(start: Day, end: Day): set<Day> {
    set d | start <= d <= end && IsWorkingDay(d)
  }

  /** WorkingDays counts exactly the working days of the range. */
  lemma {:induction false} WorkingDaysCountsTheSet(start: Day, end: Day)
    ensures WorkingDays(start, end) == |WorkingDaySet(start, end)|
    decreases end - start
  {
    if end < start {
      assert WorkingDaySet(start, end) == {};
    } else {
      WorkingDaysCountsTheSet(start, end - 1);
      if IsWorkingDay(end) {
        assert WorkingDaySet(start, end) == WorkingDaySet(start, end - 1) + {end};
      } else {
        assert WorkingDaySet(start, end) == WorkingDaySet(start, end - 1);
      }
    }
  }

  /** Counting a range is counting its two halves. */
  lemma {:induction false} WorkingDaysSplit(start: Day, mid: Day, end: Day)
    requires start - 1 <= mid <= end
    ensures WorkingDays(start, end) == WorkingDays(start, mid) + WorkingDays(mid + 1, end)
    decreases end - mid
  {
    if mid < end {
      WorkingDaysSplit(start, mid, end - 1);
    }
  }

  /** A single day counts 1 when it is a weekday and 0 when it falls on a weekend. */
  lemma SingleDay(d: Day)
    ensures WorkingDays(d, d) == (if IsWorkingDay(d) then 1 else 0)
  {
  }

  /** The day after `d` is one weekday later, Saturday wrapping round to Sunday. */
  lemma NextWeekday(d: Day)
    ensures Weekday(d + 1) == (Weekday(d) + 1) % 7
  {
  }

  /** Any seven consecutive days hold exactly five working days. */
  lemma {:induction false} WeekHasFiveWorkingDays(d: Day)
    ensures WorkingDays(d, d + 6) == 5
  {
    NextWeekday(d);
    NextWeekday(d + 1);
    NextWeekday(d + 2);
    NextWeekday(d + 3);
    NextWeekday(d + 4);
    NextWeekday(d + 5);
    assert WorkingDays(d, d + 6) == WorkingDays(d, d + 5) + (if IsWorkingDay(d + 6) then 1 else 0);
    assert WorkingDays(d, d + 5) == WorkingDays(d, d + 4) + (if IsWorkingDay(d + 5) then 1 else 0);
    assert WorkingDays(d, d + 4) == WorkingDays(d, d + 3) + (if IsWorkingDay(d + 4) then 1 else 0);
    assert WorkingDays(d, d + 3) == WorkingDays(d, d + 2) + (if IsWorkingDay(d + 3) then 1 else 0);
    assert WorkingDays(d, d + 2) == WorkingDays(d, d + 1) + (if IsWorkingDay(d + 2) then 1 else 0);
    assert WorkingDays(d, d + 1) == WorkingDays(d, d) + (if IsWorkingDay(d + 1) then 1 else 0);
  }

  /** Monday to Friday of the same week are five working days, in any year. */
  lemma {:induction false} MondayToFriday(monday: Day)
    requires Weekday(monday) == 1
    ensures WorkingDays(monday, monday + 4) == 5
  {
    NextWeekday(monday);
    NextWeekday(monday + 1);
    NextWeekday(monday + 2);
    NextWeekday(monday + 3);
    assert WorkingDays(monday, monday + 4) == WorkingDays(monday, monday + 3) + 1;
    assert WorkingDays(monday, monday + 3) == WorkingDays(monday, monday + 2) + 1;
    assert WorkingDays(monday, monday + 2) == WorkingDays(monday, monday + 1) + 1;
    assert WorkingDays(monday, monday + 1) == WorkingDays(monday, monday) + 1;
  }

  /** A range that holds only Saturday and Sunday has no working day. */
  lemma {:induction false} WeekendOnly(saturday: Day)
    requires Weekday(saturday) == Saturday
    ensures WorkingDays(saturday, saturday + 1) == 0
  {
    assert Weekday(saturday + 1) == Sunday;
    assert WorkingDays(saturday, saturday + 1) == WorkingDays(saturday, saturday) + 0;
  }

  // The Gregorian calendar, to find the first day of a month.

  predicate IsLeapYear(y: int) {
    y % 4 == 0 && (y % 100 != 0 || y % 400 == 0)
  }

  /** Days in month `m` (0 = January) of year `y`. */
  function DaysInMonth(y: int, m: int): (n: int)
    requires 0 <= m < 12
    ensures 28 <= n <= 31
  {
    if m == 1 then (if IsLeapYear(y) then 29 else 28)
    else if m == 3 || m == 5 || m == 8 || m == 10 then 30
    else 31
  }

  /** Days of year `y` before the first of month `m`. */
  function DaysBeforeMonth(y: int, m: int): (n: int)
    requires 0 <= m <= 12
    ensures 28 * m <= n <= 31 * m
    decreases m
  {
    if m == 0 then 0 else DaysBeforeMonth(y, m - 1) + DaysInMonth(y, m - 1)
  }

  /** Leap years among the years before `y` (counted from year 1; floor division keeps it
      consistent for any `y`). */
  function LeapYearsBefore(y: int): int {
    (y - 1) / 4 - (y - 1) / 100 + (y - 1) / 400
  }

  /** The day number of 1 January of year `y`. */
  function YearStart(y: int): Day {
    365 * (y - 1970) + LeapYearsBefore(y) - LeapYearsBefore(1970)
  }

  /** `new Date(y, m, 1)`: the first day of month `m` of year `y`, where a month outside
      0..11 rolls over into the neighbouring years, as JavaScript's `Date` does. */
  function MonthStart(y: int, m: int): (d: Day)
    ensures YearStart(y + m / 12) <= d < YearStart(y + m / 12 + 1)
    ensures 0 <= m < 12 ==> YearStart(y) <= d < YearStart(y + 1)
  {
    var year := y + m / 12;
    var month := m % 12;
    assert 0 <= month < 12;
    assert 0 <= m < 12 ==> year == y;
    YearLength(year);
    YearStart(year) + DaysBeforeMonth(year, month)
  }

  lemma DivStep(y: int)
    ensures y / 4 - (y - 1) / 4 == (if y % 4 == 0 then 1 else 0)
    ensures y / 100 - (y - 1) / 100 == (if y % 100 == 0 then 1 else 0)
    ensures y / 400 - (y - 1) / 400 == (if y % 400 == 0 then 1 else 0)
  {
  }

  /** A year has 366 days when it is a leap year and 365 otherwise. */
  lemma YearLength(y: int)
    ensures YearStart(y + 1) - YearStart(y) == if IsLeapYear(y) then 366 else 365
  {
    DivStep(y);
  }

  /** The twelve months of a year add up to its length. */
  lemma MonthsFillTheYear(y: int)
    ensures DaysBeforeMonth(y, 12) == if IsLeapYear(y) then 366 else 365
  {
    var feb := if IsLeapYear(y) then 29 else 28;
    assert DaysBeforeMonth(y, 2) == 31 + feb;
    assert DaysBeforeMonth(y, 4) == 31 + feb + 31 + 30;
    assert DaysBeforeMonth(y, 6) == 31 + feb + 31 + 30 + 31 + 30;
    assert DaysBeforeMonth(y, 8) == 31 + feb + 31 + 30 + 31 + 30 + 31 + 31;
    assert DaysBeforeMonth(y, 10) == 31 + feb + 31 + 30 + 31 + 30 + 31 + 31 + 30 + 31;
  }

  /** Within a year, a month starts after the months before it. */
  lemma MonthStartInYear(y: int, m: int)
    requires 0 <= m < 12
    ensures MonthStart(y, m) == YearStart(y) + DaysBeforeMonth(y, m)
  {
    assert m / 12 == 0 && m % 12 == m;
  }

  /** Month 12 of year `y` is January of year `y + 1`. */
  lemma MonthStartRollsOver(y: int)
    ensures MonthStart(y, 12) == YearStart(y + 1)
  {
    assert 12 / 12 == 1 && 12 % 12 == 0;
  }

  /** The window [MonthStart(y, m), MonthStart(y, m + 1)) that counts as "this month"
      holds exactly the days of month `m`, December rolling over into January. */
  lemma MonthWindow(y: int, m: int)
    requires 0 <= m < 12
    ensures MonthStart(y, m + 1) - MonthStart(y, m) == DaysInMonth(y, m)
  {
    MonthStartInYear(y, m);
    if m == 11 {
      MonthStartRollsOver(y);
      YearLength(y);
      MonthsFillTheYear(y);
    } else {
      MonthStartInYear(y, m + 1);
    }
  }
}
