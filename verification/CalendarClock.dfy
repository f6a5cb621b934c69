/** A clock that is set to a timestamp and then ticked second by second with the carry
    chain of common/services/calendar. */
module CalendarClock {
  import opened Calendar
  import opened CalendarTick
  import opened Folds

  /** One tick of a clock; the source asserts that the date is valid first. */
  function Tick(d: Date): Date {
    if Valid(d) then AddSecond(d) else d
  }

  /** The second at which a tick goes wrong. */
  predicate MisticksAt(timestamp: nat) {
    var d := DateOf(timestamp);
    LosesTheDay(d) && LastSecondOfDay(d)
  }

  lemma TickIsConversion(timestamp: nat)
    requires timestamp + 1 < LIMIT && !MisticksAt(timestamp)
    ensures Tick(DateOf(timestamp)) == DateOf(timestamp + 1)
  {
    hide AddSecond, Days, LeapYear, MonthSize, DateOf, SecondsSinceEpoch, LosesTheDay;
    var d := DateOf(timestamp);
    DateOfIsTheDate(timestamp);
    ValidIsBelowLimit(d);
    AddSecondExact(d);
    NextSecondIsUnique(d, AddSecond(d), timestamp);
  }

  lemma NextSecondIsUnique(d: Date, next: Date, timestamp: nat)
    requires Valid(d) && SecondsSinceEpoch(d) == timestamp && d.dayofweek == Weekday(Days(d))
    requires IsNextSecond(d, next)
    ensures next == DateOf(timestamp + 1)
  {
    hide Days, LeapYear, MonthSize, DateOf, SecondsSinceEpoch, LastSecondOfDay, SecondOfDay;
    var expected := DateOf(timestamp + 1);
    DateOfIsTheDate(timestamp + 1);
    NextSecondIsNextDay(d, next);
    OrderIsReflected(next, expected);
    SameDays(next, expected);
    NextWeekday(Days(d));
  }

  lemma NextSecondIsNextDay(d: Date, next: Date)
    requires Normal(d) && Normal(next) && SecondsSinceEpoch(next) == SecondsSinceEpoch(d) + 1
    ensures Days(next) == Days(d) + if LastSecondOfDay(d) then 1 else 0
  {
    hide Days, SecondsSinceEpoch, Normal, LastSecondOfDay, SecondOfDay;
    DayAndSecond(d);
    DayAndSecond(next);
  }

  lemma DayAndSecond(d: Date)
    requires Normal(d)
    ensures SecondsSinceEpoch(d) == Days(d) * 86400 + SecondOfDay(d)
    ensures SecondOfDay(d) < 86400
    ensures SecondOfDay(d) == 86399 <==> LastSecondOfDay(d)
  {
  }

  lemma NextWeekday(days: int)
    ensures Weekday(days) < 7 && Weekday(days + 1) == (Weekday(days) + 1) % 7
  {
  }

  // ----- The four seconds that are lost, as timestamps -----

  /** 28 February 1992, 29 February 1992, 28 February 2100 and 31 December 2105, each
      at 23:59:59. */
  predicate LostSecond(timestamp: int) {
    || timestamp == 699321599 || timestamp == 699407999
    || timestamp == 4107542399 || timestamp == 4291747199
  }

  function LastSecondOf(year: nat, month: nat, date: nat): Date {
    Date(59, 59, 23, date, month, year, 0)
  }

  lemma LastSecondsOfFebruary1992()
    ensures
      var a, b := LastSecondOf(1992, 1, 27), LastSecondOf(1992, 1, 28);
      && Normal(a) && SecondsSinceEpoch(a) == 699321599
      && Normal(b) && SecondsSinceEpoch(b) == 699407999
  {
    MonthsOfYear(true);
  }

  lemma LastSecondOfFebruary2100()
    ensures var c := LastSecondOf(2100, 1, 27); Normal(c) && SecondsSinceEpoch(c) == 4107542399
  {
    MonthsOfYear(false);
  }

  lemma LastSecondOf2105()
    ensures var d := LastSecondOf(2105, 11, 30); Normal(d) && SecondsSinceEpoch(d) == 4291747199
  {
    MonthsOfYear(false);
    MonthStep(false, 12);
  }

  lemma LastSeconds()
    ensures
      var a, b := LastSecondOf(1992, 1, 27), LastSecondOf(1992, 1, 28);
      && Normal(a) && SecondsSinceEpoch(a) == 699321599
      && Normal(b) && SecondsSinceEpoch(b) == 699407999
    ensures
      var c, d := LastSecondOf(2100, 1, 27), LastSecondOf(2105, 11, 30);
      && Normal(c) && SecondsSinceEpoch(c) == 4107542399
      && Normal(d) && SecondsSinceEpoch(d) == 4291747199
  {
    hide Normal, SecondsSinceEpoch;
    LastSecondsOfFebruary1992();
    LastSecondOfFebruary2100();
    LastSecondOf2105();
  }

  /** A date is the last second of a lost day exactly if its timestamp is one of four. */
  lemma LostSecondsAreFour(d: Date)
    requires Normal(d)
    ensures LosesTheDay(d) && LastSecondOfDay(d) <==> LostSecond(SecondsSinceEpoch(d))
  {
    hide SecondsSinceEpoch, Normal;
    LastSeconds();
    OrderIsReflected(d, LastSecondOf(1992, 1, 27));
    OrderIsReflected(d, LastSecondOf(1992, 1, 28));
    OrderIsReflected(d, LastSecondOf(2100, 1, 27));
    OrderIsReflected(d, LastSecondOf(2105, 11, 30));
  }

  lemma MisticksAtLostSeconds(timestamp: nat)
    ensures MisticksAt(timestamp) <==> LostSecond(timestamp)
  {
    hide DateOf, SecondsSinceEpoch, Normal, Days;
    DateOfIsTheDate(timestamp);
    LostSecondsAreFour(DateOf(timestamp));
  }

  /** Where the tick of a lost second leads: a day too far, to a date that does not
      exist, or back to the start of the last year. */
  lemma TickOfLostSecond(d: Date)
    requires Valid(d) && LosesTheDay(d) && LastSecondOfDay(d)
    ensures
      var next := AddSecond(d);
      if d.year == 1992 && d.date == 27 then Valid(next) && SecondsSinceEpoch(next) == 699408000
      else if d.year == 2105 then Valid(next)
      else !Normal(next)
  {
    EightBitsMisjudge(d.year);
    MonthsOfYear(true);
    hide LeapInEightBits;
    assert d.year == 1992 ==> DaysBeforeMonth(true, 2) == 60;
  }

  /** A clock that will never be right again: it stands on a date that does not exist,
      or is a day ahead, or the calendar has ended. */
  ghost predicate Astray(d: Date, now: nat) {
    || !Normal(d)
    || (Valid(d) && SecondsSinceEpoch(d) == now + 86400 && 699408000 <= SecondsSinceEpoch(d) <= 4107542399)
    || (Normal(d) && LIMIT <= now && SecondsSinceEpoch(d) < now)
  }

  lemma AstrayIsWrong(d: Date, now: nat)
    requires Astray(d, now)
    ensures d != DateOf(now)
  {
    hide DateOf, SecondsSinceEpoch, Normal, Days;
    DateOfIsTheDate(now);
  }

  lemma ValidIsNormal(d: Date)
    requires Valid(d)
    ensures Normal(d) && SecondsSinceEpoch(d) < LIMIT
  {
    hide SecondsSinceEpoch;
    assert Normal(d);
    ValidIsBelowLimit(d);
  }

  /** Which lost second a date is, by its year and day. */
  lemma WhichLostSecond(d: Date)
    requires Valid(d) && LosesTheDay(d) && LastSecondOfDay(d)
    ensures SecondsSinceEpoch(d) == 699321599 <==> d.year == 1992 && d.date == 27
    ensures SecondsSinceEpoch(d) == 4291747199 <==> d.year == 2105
  {
    ValidIsNormal(d);
    hide SecondsSinceEpoch, Normal, Valid;
    LastSeconds();
    OrderIsReflected(d, LastSecondOf(1992, 1, 27));
    OrderIsReflected(d, LastSecondOf(2105, 11, 30));
  }

  lemma AstrayTick(d: Date, now: nat)
    requires Astray(d, now) && Valid(d)
    ensures Astray(AddSecond(d), now + 1)
  {
    var next := AddSecond(d);
    AddSecondExact(d);
    ValidIsNormal(d);
    LostSecondsAreFour(d);
    hide SecondsSinceEpoch, Normal, Valid, AddSecond, LosesTheDay, LastSecondOfDay;
    if LosesTheDay(d) && LastSecondOfDay(d) {
      TickOfLostSecond(d);
      WhichLostSecond(d);
    }
    if Valid(next) {
      ValidIsNormal(next);
    }
  }

  lemma AstrayStays(d: Date, now: nat)
    requires Astray(d, now)
    ensures Astray(Tick(d), now + 1)
  {
    hide SecondsSinceEpoch, Normal, Valid, AddSecond;
    if Valid(d) {
      AstrayTick(d, now);
    }
  }

  lemma {:induction false} AstrayForever(d: Date, now: nat, n: nat)
    requires Astray(d, now)
    ensures Iterate(Tick, d, n) != DateOf(now + n)
    decreases n
  {
    hide Astray, Tick, DateOf;
    if n == 0 {
      AstrayIsWrong(d, now);
    } else {
      AstrayStays(d, now);
      AstrayForever(Tick(d), now + 1, n - 1);
    }
  }

  lemma GoesAstray(timestamp: nat)
    requires LostSecond(timestamp) || LIMIT <= timestamp
    ensures Astray(Tick(DateOf(timestamp)), timestamp + 1)
  {
    hide DateOf, SecondsSinceEpoch, Normal, Valid, AddSecond, LosesTheDay, LastSecondOfDay, Days;
    var d := DateOf(timestamp);
    DateOfIsTheDate(timestamp);
    ValidIsBelowLimit(d);
    if timestamp < LIMIT {
      LostSecondsAreFour(d);
      TickOfLostSecond(d);
      WhichLostSecond(d);
      if Valid(AddSecond(d)) {
        ValidIsNormal(AddSecond(d));
      }
    }
  }

  /** n ticks from a timestamp do not run through a lost second. */
  predicate RunsTrue(timestamp: nat, n: nat) {
    n == 0 ||
    (timestamp + n < LIMIT
     && !(timestamp <= 699321599 < timestamp + n)
     && !(timestamp <= 699407999 < timestamp + n)
     && !(timestamp <= 4107542399 < timestamp + n))
  }

  /** A clock set to any timestamp and ticked n times shows the date of the timestamp n
      seconds later if and only if it does not run through one of three lost seconds or
      to the end of the year 2105. A clock that goes wrong never gets right again. */
  lemma {:induction false} ClockIsConversion(timestamp: nat, n: nat)
    ensures Iterate(Tick, DateOf(timestamp), n) == DateOf(timestamp + n) <==> RunsTrue(timestamp, n)
    decreases n
  {
    hide DateOf, MisticksAt, Tick, Astray;
    if n != 0 {
      MisticksAtLostSeconds(timestamp);
      if LostSecond(timestamp) || LIMIT <= timestamp {
        GoesAstray(timestamp);
        AstrayForever(Tick(DateOf(timestamp)), timestamp + 1, n - 1);
      } else {
        TickIsConversion(timestamp);
        ClockIsConversion(timestamp + 1, n - 1);
      }
    }
  }
}
