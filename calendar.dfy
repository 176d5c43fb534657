/**
 * Calendar dates as the client sees them through JavaScript's `Date`:
 * the fields `getFullYear()`, `getMonth()` (0 = January) and `getDate()`,
 * the weekday `getDay()` (0 = Sunday), day arithmetic through
 * `new Date(y, m, x)` / `setDate(x)`, and the helpers of `utils.ts` and
 * `lib.ts` built on them. Time of day and time zones are abstracted away:
 * a date is a whole local day.
 */
module Calendar {

  /** A local calendar day: `year` as `getFullYear()`, `month` as
      `getMonth()` (0..11), `day` as `getDate()` (1..31). */
  datatype Date = Date(year: int, month: int, day: int)

  predicate IsLeapYear(y: int) {
    y % 4 == 0 && (y % 100 != 0 || y % 400 == 0)
  }

  function YearLength(y: int): int {
    if IsLeapYear(y) then 366 else 365
  }

  function DaysInMonth(y: int, m: int): (n: int)
    requires 0 <= m < 12
    ensures 28 <= n <= 31
  {
    if m == 1 then (if IsLeapYear(y) then 29 else 28)
    else if m == 3 || m == 5 || m == 8 || m == 10 then 30
    else 31
  }

  /** The fields of every date a JavaScript `Date` can report. */
  predicate Valid(d: Date) {
    0 <= d.month < 12 && 1 <= d.day <= DaysInMonth(d.year, d.month)
  }

  /** Leap years in the proleptic Gregorian calendar before year `y`,
      counted from an arbitrary origin (only differences matter). */
  function LeapYearsBefore(y: int): int {
    (y - 1) / 4 - (y - 1) / 100 + (y - 1) / 400
  }

  /** Days from 1970-01-01 to January 1 of year `y`. */
  function DaysBeforeYear(y: int): int {
    365 * (y - 1970) + LeapYearsBefore(y) - LeapYearsBefore(1970)
  }

  /** Days from January 1 of year `y` to the first of month `m`. */
  function DaysBeforeMonth(y: int, m: int): int
    requires 0 <= m < 12
  {
    [0, 31, 59, 90, 120, 151, 181, 212, 243, 273, 304, 334][m]
      + (if m >= 2 && IsLeapYear(y) then 1 else 0)
  }

  /** The day number of a date: days since 1970-01-01, the whole-day part
      of the time value JavaScript compares when it compares two dates. */
  function DayNumber(d: Date): int
    requires Valid(d)
  {
    DaysBeforeYear(d.year) + DaysBeforeMonth(d.year, d.month) + d.day - 1
  }

  /** Counting multiples of `4`, `100` and `400`: one more is passed
      exactly when `y` is one. */
  lemma MultiplesStep(y: int)
    ensures y / 4 - (y - 1) / 4 == (if y % 4 == 0 then 1 else 0)
    ensures y / 100 - (y - 1) / 100 == (if y % 100 == 0 then 1 else 0)
    ensures y / 400 - (y - 1) / 400 == (if y % 400 == 0 then 1 else 0)
  {
  }

  /** A multiple of 400 is one of 100. */
  lemma Multiple400(y: int)
    requires y % 400 == 0
    ensures y % 100 == 0
  {
    var q := y / 400;
    assert y == 400 * q;
    assert y == 100 * (4 * q);
  }

  /** A multiple of 100 is one of 4. */
  lemma Multiple100(y: int)
    requires y % 100 == 0
    ensures y % 4 == 0
  {
    var q := y / 100;
    assert y == 100 * q;
    assert y == 4 * (25 * q);
  }

  lemma LeapYearsStep(y: int)
    ensures LeapYearsBefore(y + 1) == LeapYearsBefore(y) + (if IsLeapYear(y) then 1 else 0)
  {
    MultiplesStep(y);
    if y % 400 == 0 {
      Multiple400(y);
    }
    if y % 100 == 0 {
      Multiple100(y);
    }
  }

  lemma YearStep(y: int)
    ensures DaysBeforeYear(y + 1) == DaysBeforeYear(y) + YearLength(y)
  {
    LeapYearsStep(y);
  }

  lemma MonthStep(y: int, m: int)
    requires 0 <= m < 11
    ensures DaysBeforeMonth(y, m + 1) == DaysBeforeMonth(y, m) + DaysInMonth(y, m)
  {
  }

  /** The day after `d`, rolling over the month and the year. */
  function NextDay(d: Date): (r: Date)
    requires Valid(d)
    ensures Valid(r) && DayNumber(r) == DayNumber(d) + 1
  {
    if d.day < DaysInMonth(d.year, d.month) then
      Date(d.year, d.month, d.day + 1)
    else if d.month < 11 then
      MonthStep(d.year, d.month);
      Date(d.year, d.month + 1, 1)
    else
      YearStep(d.year);
      Date(d.year + 1, 0, 1)
  }

  /** The day before `d`, rolling back over the month and the year. */
  function PrevDay(d: Date): (r: Date)
    requires Valid(d)
    ensures Valid(r) && DayNumber(r) == DayNumber(d) - 1
  {
    if d.day > 1 then
      Date(d.year, d.month, d.day - 1)
    else if d.month > 0 then
      MonthStep(d.year, d.month - 1);
      Date(d.year, d.month - 1, DaysInMonth(d.year, d.month - 1))
    else
      YearStep(d.year - 1);
      Date(d.year - 1, 11, 31)
  }

  /** The date `k` days after `d` (before it when `k` is negative). */
  function AddDays(d: Date, k: int): (r: Date)
    requires Valid(d)
    ensures Valid(r) && DayNumber(r) == DayNumber(d) + k
    decreases if k < 0 then -k else k
  {
    if k == 0 then d
    else if k > 0 then AddDays(NextDay(d), k - 1)
    else AddDays(PrevDay(d), k + 1)
  }

  /** Day `x` of a month counted from its first day, so that 0 is the last
      day of the previous month and `DaysInMonth + 1` the first day of the
      next: JavaScript's MakeDay. `d.setDate(x)` gives
      `MakeDate(d.year, d.month, x)`, in the year of `d` whatever it is. A
      day inside the month is that date itself. */
  function MakeDate(year: int, month: int, x: int): (r: Date)
    requires 0 <= month < 12
    ensures Valid(r)
    ensures DayNumber(r) == DaysBeforeYear(year) + DaysBeforeMonth(year, month) + x - 1
    ensures 1 <= x <= DaysInMonth(year, month) ==> r == Date(year, month, x)
  {
    var r := AddDays(Date(year, month, 1), x - 1);
    if 1 <= x <= DaysInMonth(year, month) then
      SameDayIffSameDayNumber(r, Date(year, month, x));
      r
    else r
  }

  /** The year `new Date(year, month, x)` counts in: JavaScript reads a
      year from 0 to 99 as one of the years 1900 to 1999. The constructor
      gives `MakeDate(FullYear(year), month, x)`. */
  function FullYear(year: int): int {
    if 0 <= year <= 99 then 1900 + year else year
  }

  /** `datePlusOne`, `new Date(y, m, d + 1)`: the next calendar day when
      the year is outside 0..99. For a year from 0 to 99 it is the day
      after the same day of the year `FullYear(y)`, 1900 + y; February 29
      of the year 0, which 1900 lacks, gives March 2, 1900. */
  function DatePlusOne(d: Date): (r: Date)
    requires Valid(d)
    ensures Valid(r)
    ensures !(0 <= d.year <= 99) ==> r == NextDay(d) && DayNumber(r) == DayNumber(d) + 1
    ensures Valid(Date(FullYear(d.year), d.month, d.day)) ==>
      r == NextDay(Date(FullYear(d.year), d.month, d.day))
    ensures d == Date(0, 1, 29) ==> r == Date(1900, 2, 2)
  {
    var year := FullYear(d.year);
    var r := MakeDate(year, d.month, d.day + 1);
    if d == Date(0, 1, 29) then
      LeapDayOfYearZero();
      r
    else if Valid(Date(year, d.month, d.day)) then
      DayAfter(Date(year, d.month, d.day), r);
      r
    else r
  }

  /** `dateMinusOne`, `new Date(y, m, d - 1)`: the previous calendar day
      when the year is outside 0..99. For a year from 0 to 99 it is the day
      before the same day of the year `FullYear(y)`, 1900 + y; February 29
      of the year 0 gives February 28, 1900. */
  function DateMinusOne(d: Date): (r: Date)
    requires Valid(d)
    ensures Valid(r)
    ensures !(0 <= d.year <= 99) ==> r == PrevDay(d) && DayNumber(r) == DayNumber(d) - 1
    ensures Valid(Date(FullYear(d.year), d.month, d.day)) ==>
      r == PrevDay(Date(FullYear(d.year), d.month, d.day))
    ensures d == Date(0, 1, 29) ==> r == Date(1900, 1, 28)
  {
    var year := FullYear(d.year);
    var r := MakeDate(year, d.month, d.day - 1);
    if d == Date(0, 1, 29) then
      LeapDayOfYearZero();
      r
    else if Valid(Date(year, d.month, d.day)) then
      DayBefore(Date(year, d.month, d.day), r);
      r
    else r
  }

  /** Two valid dates with the same day number are the same date. */
  lemma SameDate(a: Date, b: Date)
    requires Valid(a) && Valid(b) && DayNumber(a) == DayNumber(b)
    ensures a == b
  {
    SameDayIffSameDayNumber(a, b);
  }

  /** Day `e.day + 1` of the month of `e` is the day after `e`. */
  lemma DayAfter(e: Date, r: Date)
    requires Valid(e) && Valid(r)
    requires DayNumber(r) == DaysBeforeYear(e.year) + DaysBeforeMonth(e.year, e.month) + e.day
    ensures r == NextDay(e)
  {
    SameDate(r, NextDay(e));
  }

  /** Day `e.day - 1` of the month of `e` is the day before `e`. */
  lemma DayBefore(e: Date, r: Date)
    requires Valid(e) && Valid(r)
    requires DayNumber(r) == DaysBeforeYear(e.year) + DaysBeforeMonth(e.year, e.month) + e.day - 2
    ensures r == PrevDay(e)
  {
    SameDate(r, PrevDay(e));
  }

  /** 1900 is not a leap year: it has no February 29, day 30 of its
      February is March 2 and day 28 is February 28. */
  lemma LeapDayOfYearZero()
    ensures !Valid(Date(1900, 1, 29))
    ensures MakeDate(1900, 1, 30) == Date(1900, 2, 2)
    ensures MakeDate(1900, 1, 28) == Date(1900, 1, 28)
  {
    assert !IsLeapYear(1900);
    assert DaysBeforeMonth(1900, 2) == DaysBeforeMonth(1900, 1) + 28;
    SameDate(MakeDate(1900, 1, 30), Date(1900, 2, 2));
  }

  /** `getDay()`: 0 for Sunday through 6 for Saturday; 1970-01-01 was a Thursday. */
  function Weekday(d: Date): (w: int)
    requires Valid(d)
    ensures 0 <= w < 7
  {
    (DayNumber(d) + 4) % 7
  }

  /** Going back by the weekday of day number `n` lands on a Sunday. */
  lemma SundayBefore(n: int, m: int)
    requires m == n - (n + 4) % 7
    ensures (m + 4) % 7 == 0
  {
    var q := (n + 4) / 7;
    assert n + 4 == 7 * q + (n + 4) % 7;
    assert m + 4 == 7 * q;
  }

  /** Going forward by six minus the weekday of `n` lands on a Saturday. */
  lemma SaturdayAfter(n: int, m: int)
    requires m == n + 6 - (n + 4) % 7
    ensures (m + 4) % 7 == 6
  {
    var q := (n + 4) / 7;
    assert n + 4 == 7 * q + (n + 4) % 7;
    assert m + 4 == 7 * q + 6;
  }

  /** `lastSunday`: the Sunday that starts the week of `d`, computed on a
      copy of `d` with `setDate(getDate() - getDay())`. */
  function LastSunday(d: Date): (r: Date)
    requires Valid(d)
    ensures Valid(r) && Weekday(r) == 0
    ensures DayNumber(r) == DayNumber(d) - Weekday(d)
  {
    var r := MakeDate(d.year, d.month, d.day - Weekday(d));
    SundayOf(d, r);
    r
  }

  /** `nextSaturday`: the Saturday that ends the week of `d`, computed on a
      copy of `d` with `setDate(getDate() + 6 - getDay())`. */
  function NextSaturday(d: Date): (r: Date)
    requires Valid(d)
    ensures Valid(r) && Weekday(r) == 6
    ensures DayNumber(r) == DayNumber(d) + 6 - Weekday(d)
  {
    var r := MakeDate(d.year, d.month, d.day + 6 - Weekday(d));
    SaturdayOf(d, r);
    r
  }

  /** The date the weekday of `d` before it is a Sunday. */
  lemma SundayOf(d: Date, r: Date)
    requires Valid(d) && Valid(r) && DayNumber(r) == DayNumber(d) - Weekday(d)
    ensures Weekday(r) == 0
  {
    SundayBefore(DayNumber(d), DayNumber(r));
  }

  /** The date six minus the weekday of `d` after it is a Saturday. */
  lemma SaturdayOf(d: Date, r: Date)
    requires Valid(d) && Valid(r) && DayNumber(r) == DayNumber(d) + 6 - Weekday(d)
    ensures Weekday(r) == 6
  {
    SaturdayAfter(DayNumber(d), DayNumber(r));
  }

  /** `isSameDay`: the same year, month and day of month. A date is no more
      than those three fields, so this is equality of dates, and hence an
      equivalence relation. */
  predicate IsSameDay(a: Date, b: Date): (same: bool)
    ensures same <==> a == b
  {
    a.year == b.year && a.month == b.month && a.day == b.day
  }

  /** Strictly earlier in the calendar, field by field. */
  predicate Earlier(a: Date, b: Date) {
    a.year < b.year
    || (a.year == b.year && a.month < b.month)
    || (a.year == b.year && a.month == b.month && a.day < b.day)
  }

  lemma {:induction false} DaysBeforeYearGrows(y1: int, y2: int)
    requires y1 < y2
    ensures DaysBeforeYear(y1) + YearLength(y1) <= DaysBeforeYear(y2)
    decreases y2 - y1
  {
    YearStep(y1);
    if y1 + 1 < y2 {
      DaysBeforeYearGrows(y1 + 1, y2);
    }
  }

  lemma {:induction false} DaysBeforeMonthGrows(y: int, m1: int, m2: int)
    requires 0 <= m1 < m2 < 12
    ensures DaysBeforeMonth(y, m1) + DaysInMonth(y, m1) <= DaysBeforeMonth(y, m2)
    decreases m2 - m1
  {
    MonthStep(y, m1);
    if m1 + 1 < m2 {
      DaysBeforeMonthGrows(y, m1 + 1, m2);
    }
  }

  /** A date lies inside its year: its day number is below the next year's first day. */
  lemma WithinYear(d: Date)
    requires Valid(d)
    ensures DaysBeforeYear(d.year) <= DayNumber(d) < DaysBeforeYear(d.year) + YearLength(d.year)
  {
    if d.month < 11 {
      DaysBeforeMonthGrows(d.year, d.month, 11);
    }
  }

  lemma EarlierHasSmallerDayNumber(a: Date, b: Date)
    requires Valid(a) && Valid(b) && Earlier(a, b)
    ensures DayNumber(a) < DayNumber(b)
  {
    if a.year < b.year {
      WithinYear(a);
      WithinYear(b);
      DaysBeforeYearGrows(a.year, b.year);
    } else if a.month < b.month {
      DaysBeforeMonthGrows(a.year, a.month, b.month);
    }
  }

  /** Comparing day numbers is comparing dates field by field, so the
      cache may stand for dates by their day numbers. */
  lemma DayNumberOrder(a: Date, b: Date)
    requires Valid(a) && Valid(b)
    ensures DayNumber(a) < DayNumber(b) <==> Earlier(a, b)
  {
    if Earlier(a, b) {
      EarlierHasSmallerDayNumber(a, b);
    } else if Earlier(b, a) {
      EarlierHasSmallerDayNumber(b, a);
    } else {
      assert a == b;
    }
  }

  /** `isSameDay` holds exactly when the day numbers agree: on day numbers
      it is `==`. */
  lemma SameDayIffSameDayNumber(a: Date, b: Date)
    requires Valid(a) && Valid(b)
    ensures IsSameDay(a, b) <==> DayNumber(a) == DayNumber(b)
  {
    DayNumberOrder(a, b);
    DayNumberOrder(b, a);
  }

  /** The week of `d` runs from `lastSunday(d)` to `nextSaturday(d)`: `d`
      lies between them, at most six days from each, and they are six days
      apart. */
  lemma WeekAroundDate(d: Date)
    requires Valid(d)
    ensures DayNumber(LastSunday(d)) <= DayNumber(d) <= DayNumber(NextSaturday(d))
    ensures DayNumber(d) - DayNumber(LastSunday(d)) <= 6
    ensures DayNumber(NextSaturday(d)) - DayNumber(d) <= 6
    ensures DayNumber(NextSaturday(d)) - DayNumber(LastSunday(d)) == 6
  {
  }

  /** Two day numbers less than a week apart fall on the same weekday only
      when they are equal. */
  lemma SameWeekdayWithinWeek(a: int, b: int)
    requires (a + 4) % 7 == (b + 4) % 7
    requires a <= b <= a + 6
    ensures a == b
  {
    var qa, qb := (a + 4) / 7, (b + 4) / 7;
    assert a + 4 == 7 * qa + (a + 4) % 7;
    assert b + 4 == 7 * qb + (b + 4) % 7;
    assert b - a == 7 * (qb - qa);
  }

  /** The Sunday reached from day number `n` is the only Sunday among the
      six days up to `n`. */
  lemma OnlySundayBefore(n: int, m: int, k: int)
    requires m == n - (n + 4) % 7
    requires (k + 4) % 7 == 0 && n - 6 <= k <= n
    ensures k == m
  {
    SundayBefore(n, m);
    if m <= k {
      SameWeekdayWithinWeek(m, k);
    } else {
      SameWeekdayWithinWeek(k, m);
    }
  }

  /** The Saturday reached from day number `n` is the only Saturday among
      the six days from `n`. */
  lemma OnlySaturdayAfter(n: int, m: int, k: int)
    requires m == n + 6 - (n + 4) % 7
    requires (k + 4) % 7 == 6 && n <= k <= n + 6
    ensures k == m
  {
    SaturdayAfter(n, m);
    if m <= k {
      SameWeekdayWithinWeek(m, k);
    } else {
      SameWeekdayWithinWeek(k, m);
    }
  }

  /** A Sunday among the six days up to `d` is the date the weekday of `d`
      before it. */
  lemma OnlySundayOf(d: Date, r: Date, s: Date)
    requires Valid(d) && Valid(r) && Valid(s)
    requires DayNumber(r) == DayNumber(d) - Weekday(d)
    requires Weekday(s) == 0 && DayNumber(d) - 6 <= DayNumber(s) <= DayNumber(d)
    ensures DayNumber(s) == DayNumber(r)
  {
    OnlySundayBefore(DayNumber(d), DayNumber(r), DayNumber(s));
  }

  /** A Saturday among the six days from `d` is the date six minus the
      weekday of `d` after it. */
  lemma OnlySaturdayOf(d: Date, r: Date, s: Date)
    requires Valid(d) && Valid(r) && Valid(s)
    requires DayNumber(r) == DayNumber(d) + 6 - Weekday(d)
    requires Weekday(s) == 6 && DayNumber(d) <= DayNumber(s) <= DayNumber(d) + 6
    ensures DayNumber(s) == DayNumber(r)
  {
    OnlySaturdayAfter(DayNumber(d), DayNumber(r), DayNumber(s));
  }

  /** `lastSunday(d)` is the only Sunday in the six days up to `d`. */
  lemma LastSundayUnique(d: Date, s: Date)
    requires Valid(d) && Valid(s) && Weekday(s) == 0
    requires DayNumber(d) - 6 <= DayNumber(s) <= DayNumber(d)
    ensures IsSameDay(s, LastSunday(d))
  {
    OnlySundayOf(d, LastSunday(d), s);
    SameDayIffSameDayNumber(s, LastSunday(d));
  }

  /** `nextSaturday(d)` is the only Saturday in the six days from `d`. */
  lemma NextSaturdayUnique(d: Date, s: Date)
    requires Valid(d) && Valid(s) && Weekday(s) == 6
    requires DayNumber(d) <= DayNumber(s) <= DayNumber(d) + 6
    ensures IsSameDay(s, NextSaturday(d))
  {
    OnlySaturdayOf(d, NextSaturday(d), s);
    SameDayIffSameDayNumber(s, NextSaturday(d));
  }
}
