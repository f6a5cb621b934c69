/** The calendar service (common/services/calendar), against the definition of
    "Seconds Since the Epoch" in section 4.16 of the Base Definitions of IEEE Std
    1003.1-2017. */
module Calendar {
  import opened Remainders

  /** struct calendar_date: days and months count from zero, Sunday is zero. */
  datatype Date = Date(second: nat, minute: nat, hour: nat, date: nat, month: nat, year: nat, dayofweek: nat)

  const DAYS_IN_MONTH: seq<nat> := [31, 28, 31, 30, 31, 30, 31, 31, 30, 31, 30, 31]
  const DAYS_IN_LEAP_MONTH: seq<nat> := [31, 29, 31, 30, 31, 30, 31, 31, 30, 31, 30, 31]

  /** The first second of the year 2106. */
  const LIMIT: nat := 4291747200

  predicate LeapYear(year: nat) {
    year % 4 == 0 && (year % 100 != 0 || year % 400 == 0)
  }

  function MonthSize(leap: bool, month: nat): (days: nat)
    requires month < 12
    ensures 28 <= days <= 31
  {
    if leap then DAYS_IN_LEAP_MONTH[month] else DAYS_IN_MONTH[month]
  }

  function YearSize(year: nat): nat {
    if LeapYear(year) then 366 else 365
  }

  /** calendar_is_date_valid, which does not look at the day of the week. */
  predicate Valid(d: Date) {
    && d.second < 60 && d.minute < 60 && d.hour < 24
    && d.month < 12 && d.date < 31
    && d.date < MonthSize(LeapYear(d.year), d.month)
    && 1970 <= d.year < 2106
  }

  // ----- Reference: the standard's formula -----

  /** The days of the year before a month, in closed form and not from a table: 367 days
      in twelve steps, less the days that February lacks of thirty. */
  function DaysBeforeMonth(leap: bool, month: nat): nat
    requires month <= 12
  {
    (367 * (month + 1) - 362) / 12 - (if month < 2 then 0 else if leap then 1 else 2)
  }

  /** The table of the code has the lengths of the months. */
  lemma MonthStep(leap: bool, month: nat)
    requires 0 < month <= 12
    ensures DaysBeforeMonth(leap, month) == DaysBeforeMonth(leap, month - 1) + MonthSize(leap, month - 1)
  {
  }

  /** (tm_year-70)*365 + (tm_year-69)/4 - (tm_year-1)/100 + (tm_year+299)/400 */
  function DaysBeforeYear(year: nat): int
    requires 1970 <= year
  {
    (year - 1970) * 365 + (year - 1969) / 4 - (year - 1901) / 100 + (year - 1601) / 400
  }

  function Days(d: Date): int
    requires d.month < 12 && 1970 <= d.year
  {
    DaysBeforeYear(d.year) + DaysBeforeMonth(LeapYear(d.year), d.month) + d.date
  }

  function SecondOfDay(d: Date): nat {
    d.hour * 3600 + d.minute * 60 + d.second
  }

  function SecondsSinceEpoch(d: Date): int
    requires d.month < 12 && 1970 <= d.year
  {
    Days(d) * 86400 + SecondOfDay(d)
  }

  /** 1 January 1970 was a Thursday. */
  function Weekday(days: int): nat {
    (days + 4) % 7
  }

  lemma Quotients(year: nat)
    requires 1970 <= year
    ensures (year - 1968) / 4 == (year - 1969) / 4 + if year % 4 == 0 then 1 else 0
    ensures (year - 1900) / 100 == (year - 1901) / 100 + if year % 100 == 0 then 1 else 0
    ensures (year - 1600) / 400 == (year - 1601) / 400 + if year % 400 == 0 then 1 else 0
  {
    QuotientStep(year - 1968, 4);
    QuotientStep(year - 1900, 100);
    QuotientStep(year - 1600, 400);
    AddMultiple(year - 1968, 4, 1968);
    AddMultiple(year - 1900, 100, 1900);
    AddMultiple(year - 1600, 400, 1600);
  }

  lemma HundredIsFourTimes(year: nat)
    ensures year % 100 == 0 ==> year % 4 == 0
  {
    if year % 100 == 0 {
      RemainderIs(year, 4, 25 * (year / 100), 0);
    }
  }

  lemma FourHundredIsHundredTimes(year: nat)
    ensures year % 400 == 0 ==> year % 100 == 0
  {
    if year % 400 == 0 {
      RemainderIs(year, 100, 4 * (year / 400), 0);
    }
  }

  /** The formula grows by the size of the year that the code adds in its loop. */
  lemma YearStep(year: nat)
    requires 1970 <= year
    ensures DaysBeforeYear(year + 1) == DaysBeforeYear(year) + YearSize(year)
  {
    Quotients(year);
    HundredIsFourTimes(year);
    FourHundredIsHundredTimes(year);
  }

  lemma MonthsOfYear(leap: bool)
    ensures DaysBeforeMonth(leap, 1) == 31
    ensures DaysBeforeMonth(leap, 12) == if leap then 366 else 365
  {
  }

  lemma {:induction false} YearsAscend(first: nat, last: nat)
    requires 1970 <= first < last
    ensures DaysBeforeYear(first) + YearSize(first) <= DaysBeforeYear(last)
    decreases last
  {
    YearStep(last - 1);
    if first + 1 < last {
      YearsAscend(first, last - 1);
    }
  }

  lemma {:induction false} MonthsAscend(leap: bool, first: nat, last: nat)
    requires first < last <= 12
    ensures DaysBeforeMonth(leap, first) + MonthSize(leap, first) <= DaysBeforeMonth(leap, last)
    decreases last
  {
    MonthStep(leap, last);
    hide DaysBeforeMonth;
    if first + 1 < last {
      MonthsAscend(leap, first, last - 1);
    }
  }

  // ----- Order -----

  /** Fields in their ranges; unlike Valid, any year from 1970 on. */
  predicate Normal(d: Date) {
    && d.second < 60 && d.minute < 60 && d.hour < 24
    && d.month < 12 && d.date < MonthSize(LeapYear(d.year), d.month)
    && 1970 <= d.year
  }

  /** Calendar order, field by field from the year down. */
  predicate Before(a: Date, b: Date) {
    a.year < b.year || (a.year == b.year &&
    (a.month < b.month || (a.month == b.month &&
    (a.date < b.date || (a.date == b.date &&
    (a.hour < b.hour || (a.hour == b.hour &&
    (a.minute < b.minute || (a.minute == b.minute && a.second < b.second)))))))))
  }

  lemma EarlierDay(a: Date, b: Date)
    requires Normal(a) && Normal(b)
    requires a.year < b.year || (a.year == b.year && (a.month < b.month || (a.month == b.month && a.date < b.date)))
    ensures Days(a) < Days(b)
  {
    if a.year < b.year {
      YearsAscend(a.year, b.year);
      MonthsOfYear(LeapYear(a.year));
      MonthsAscend(LeapYear(a.year), a.month, 12);
    } else if a.month < b.month {
      MonthsAscend(LeapYear(a.year), a.month, b.month);
    }
  }

  lemma OrderIsKept(a: Date, b: Date)
    requires Normal(a) && Normal(b) && Before(a, b)
    ensures SecondsSinceEpoch(a) < SecondsSinceEpoch(b)
  {
    if a.year == b.year && a.month == b.month && a.date == b.date {
      assert Days(a) == Days(b);
    } else {
      EarlierDay(a, b);
    }
  }

  /** Earlier dates have smaller timestamps, and a timestamp determines its date. */
  lemma OrderIsReflected(a: Date, b: Date)
    requires Normal(a) && Normal(b)
    ensures Before(a, b) <==> SecondsSinceEpoch(a) < SecondsSinceEpoch(b)
    ensures SecondsSinceEpoch(a) == SecondsSinceEpoch(b) <==> a == b.(dayofweek := a.dayofweek)
  {
    hide SecondsSinceEpoch;
    if Before(a, b) {
      OrderIsKept(a, b);
    } else if Before(b, a) {
      OrderIsKept(b, a);
    } else {
      assert a == b.(dayofweek := a.dayofweek);
      SameDate(a, b);
    }
  }

  lemma SameDate(a: Date, b: Date)
    requires Normal(a) && Normal(b) && a == b.(dayofweek := a.dayofweek)
    ensures SecondsSinceEpoch(a) == SecondsSinceEpoch(b)
  {
  }

  // ----- Timestamp to date -----

  /** Whole years are taken off the day number, starting with `year`. */
  function TakeYears(days: nat, year: nat): (r: (nat, nat))
    requires 1970 <= year
    ensures year <= r.1
    ensures r.0 < YearSize(r.1)
    ensures DaysBeforeYear(r.1) + r.0 == DaysBeforeYear(year) + days
    decreases days
  {
    if days < YearSize(year) then (days, year)
    else
      YearStep(year);
      TakeYears(days - YearSize(year), year + 1)
  }

  function TakeMonths(days: nat, leap: bool, month: nat): (r: (nat, nat))
    requires month < 12 && DaysBeforeMonth(leap, month) + days < DaysBeforeMonth(leap, 12)
    ensures r.1 < 12
    ensures r.0 < MonthSize(leap, r.1)
    ensures DaysBeforeMonth(leap, r.1) + r.0 == DaysBeforeMonth(leap, month) + days
    decreases days
  {
    if days < MonthSize(leap, month) then (days, month)
    else
      MonthStep(leap, month + 1);
      TakeMonths(days - MonthSize(leap, month), leap, month + 1)
  }

  lemma ClockParts(clock: nat)
    requires clock < 86400
    ensures clock / 3600 < 24
    ensures (clock / 3600) * 3600 + ((clock % 3600) / 60) * 60 + clock % 60 == clock
  {
    var hour, rest := clock / 3600, clock % 3600;
    assert rest % 60 == clock % 60 by {
      AddMultiple(rest, 60, hour * 3600);
      RemainderIs(hour * 3600, 60, hour * 60, 0);
    }
  }

  /** calendar_timestamp_to_date */
  function DateOf(timestamp: nat): Date {
    var clock, days := timestamp % 86400, timestamp / 86400;
    var (dayOfYear, year) := TakeYears(days, 1970);
    DayFitsYear(dayOfYear, year);
    var (day, month) := TakeMonths(dayOfYear, LeapYear(year), 0);
    Date(clock % 60, (clock % 3600) / 60, clock / 3600, day, month, year, (days + 4) % 7)
  }

  /** The loops of the conversion find the one date whose seconds since the epoch
      are the timestamp. */
  lemma DateOfIsTheDate(timestamp: nat)
    ensures
      var d := DateOf(timestamp);
      && Normal(d)
      && SecondsSinceEpoch(d) == timestamp
      && d.dayofweek == (Days(d) + 4) % 7
  {
    hide YearSize, LeapYear, DaysBeforeMonth, MonthSize, DaysBeforeYear, TakeYears, TakeMonths;
    var clock, days := timestamp % 86400, timestamp / 86400;
    ClockParts(clock);
    var dayAndYear := TakeYears(days, 1970);
    DayFitsYear(dayAndYear.0, dayAndYear.1);
    var dayAndMonth := TakeMonths(dayAndYear.0, LeapYear(dayAndYear.1), 0);
    var d := DateOf(timestamp);
    assert d.year == dayAndYear.1 && d.month == dayAndMonth.1 && d.date == dayAndMonth.0;
    assert SecondOfDay(d) == clock;
    assert Days(d) == days;
  }

  lemma DayFitsYear(day: nat, year: nat)
    requires day < YearSize(year)
    ensures DaysBeforeMonth(LeapYear(year), 0) + day < DaysBeforeMonth(LeapYear(year), 12)
    ensures DaysBeforeMonth(LeapYear(year), 0) == 0
    ensures DaysBeforeYear(1970) == 0
  {
    MonthsOfYear(LeapYear(year));
  }

  // ----- Date to timestamp, and the round trips -----

  /** calendar_date_to_timestamp: zero for a date that is not valid. */
  function ToTimestamp(d: Date): int {
    if Valid(d) then SecondsSinceEpoch(d) else 0
  }

  lemma YearBounds()
    ensures DaysBeforeYear(1970) == 0
    ensures DaysBeforeYear(2106) * 86400 == LIMIT
  {
  }

  function NewYear(year: nat): Date {
    Date(0, 0, 0, 0, 0, year, 0)
  }

  lemma NewYearSeconds(year: nat)
    requires 1970 <= year
    ensures Normal(NewYear(year)) && SecondsSinceEpoch(NewYear(year)) == DaysBeforeYear(year) * 86400
  {
    hide DaysBeforeYear, LeapYear;
    assert DaysBeforeMonth(LeapYear(year), 0) == 0;
  }

  lemma DateFieldRange(d: Date)
    requires Normal(d)
    ensures d.date < 31
  {
  }

  /** The valid dates are the dates of the timestamps below LIMIT. */
  lemma ValidIsBelowLimit(d: Date)
    requires Normal(d)
    ensures Valid(d) <==> SecondsSinceEpoch(d) < LIMIT
    ensures 0 <= SecondsSinceEpoch(d)
  {
    hide SecondsSinceEpoch, LeapYear, MonthSize, DaysBeforeYear, Days;
    YearBounds();
    NewYearSeconds(1970);
    NewYearSeconds(2106);
    OrderIsReflected(d, NewYear(1970));
    OrderIsReflected(d, NewYear(2106));
    DateFieldRange(d);
  }

  /** For every 32-bit timestamp: converting to a date and back returns it exactly
      when it is before the year 2106, and otherwise gives zero. */
  lemma TimestampRoundTrip(timestamp: nat)
    ensures ToTimestamp(DateOf(timestamp)) == if timestamp < LIMIT then timestamp else 0
    ensures ToTimestamp(DateOf(timestamp)) == timestamp <==> timestamp < LIMIT
  {
    DateOfIsTheDate(timestamp);
    hide DateOf;
    ValidIsBelowLimit(DateOf(timestamp));
  }

  lemma SameDays(a: Date, b: Date)
    requires Normal(a) && Normal(b) && a == b.(dayofweek := a.dayofweek)
    ensures Days(a) == Days(b)
  {
  }

  /** For every valid date: converting to a timestamp and back returns it, with
      the day of the week put right. */
  lemma DateRoundTrip(d: Date)
    requires Valid(d)
    ensures 0 <= ToTimestamp(d) < LIMIT
    ensures DateOf(ToTimestamp(d)) == d.(dayofweek := Weekday(Days(d)))
  {
    ValidIsBelowLimit(d);
    DateOfIsTheDate(ToTimestamp(d));
    OrderIsReflected(DateOf(ToTimestamp(d)), d);
    hide SecondsSinceEpoch, DateOf, LeapYear, DaysBeforeMonth;
    SameDays(DateOf(ToTimestamp(d)), d);
  }
}
