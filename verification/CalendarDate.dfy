/** struct calendar_date as the code keeps it: fields updated in place. Every
    method is tied to the function of Calendar or CalendarTick that it computes. */
module CalendarDate {
  import opened Calendar
  import opened CalendarTick

  class CalendarDate {
    var second: nat
    var minute: nat
    var hour: nat
    var date: nat
    var month: nat
    var year: nat
    var dayofweek: nat

    function Value(): Date
      reads this
    {
      Date(second, minute, hour, date, month, year, dayofweek)
    }

    /** calendar_timestamp_to_date */
    method SetFromTimestamp(timestamp: nat)
      modifies this
      ensures Value() == DateOf(timestamp)
    {
      hide LeapYear, YearSize, MonthSize, DaysBeforeYear, DaysBeforeMonth, TakeYears, TakeMonths;
      year := 1970;
      month := 0;
      var dayClock := timestamp % 86400;
      var dayNumber: nat := timestamp / 86400;
      second := dayClock % 60;
      minute := (dayClock % 3600) / 60;
      hour := dayClock / 3600;
      dayofweek := (dayNumber + 4) % 7;

      ghost var clock, days := Value(), dayNumber;
      while dayNumber >= YearSize(year)
        invariant 1970 <= year && Value() == clock.(year := year)
        invariant TakeYears(dayNumber, year) == TakeYears(days, 1970)
        decreases dayNumber
      {
        TakeOneYear(dayNumber, year);
        dayNumber := dayNumber - YearSize(year);
        year := year + 1;
      }

      LastYear(dayNumber, year);
      DayFitsYear(dayNumber, year);
      ghost var dayOfYear, leap := dayNumber, LeapYear(year);
      while dayNumber >= MonthSize(LeapYear(year), month)
        invariant month < 12 && LeapYear(year) == leap
        invariant DaysBeforeMonth(leap, month) + dayNumber < DaysBeforeMonth(leap, 12)
        invariant TakeMonths(dayNumber, leap, month) == TakeMonths(dayOfYear, leap, 0)
        invariant Value() == clock.(year := year, month := month)
        invariant TakeYears(days, 1970) == (dayOfYear, year)
        decreases dayNumber
      {
        TakeOneMonth(dayNumber, leap, month);
        dayNumber := dayNumber - MonthSize(LeapYear(year), month);
        month := month + 1;
      }
      LastMonth(dayNumber, leap, month);
      date := dayNumber;
    }

    /** calendar_date_to_timestamp, every sum reduced to 32 bits as in the code */
    method ToTimestamp() returns (timestamp: int)
      ensures timestamp == Calendar.ToTimestamp(Value())
    {
      if !Valid(Value()) {
        return 0;
      }
      assert month < 12 && 1970 <= year;
      hide Wrap, LeapYear, DaysBeforeYear, DaysBeforeMonth, Calendar.ToTimestamp, MonthSize, Valid;
      WrappedSum(Value());
      WrapFits(date * 86400 + hour * 3600 + minute * 60 + second);
      WrapFits(Wrap(date * 86400 + hour * 3600 + minute * 60 + second)
        + DaysBeforeMonth(LeapYear(year), month) * 86400);
      timestamp := Wrap(date * 86400 + hour * 3600 + minute * 60 + second);
      timestamp := AddMonths(timestamp, year, month);
      timestamp := AddYears(timestamp, year);
    }

    method AddYear()
      modifies this`year
      ensures Value() == CalendarTick.AddYear(old(Value()))
    {
      if year < 2105 {
        year := year + 1;
      }
    }

    method AddMonth()
      modifies this`year, this`month
      ensures Value() == CalendarTick.AddMonth(old(Value()))
    {
      var months := month + 1;
      if months == 12 {
        months := 0;
        AddYear();
      }
      month := months;
    }

    method AddDay()
      requires month < 12
      modifies this
      ensures Value() == CalendarTick.AddDay(old(Value()))
    {
      var dates, months, eightBitYear := date + 1, month, year % 256;
      if dates == MonthSize(LeapYear(eightBitYear), months) {
        dates := 0;
        AddMonth();
      }
      dayofweek := (dayofweek + 1) % 256;
      if dayofweek == 7 {
        dayofweek := 0;
      }
      date := dates;
    }

    method AddHour()
      requires month < 12
      modifies this
      ensures Value() == CalendarTick.AddHour(old(Value()))
    {
      var hours := hour + 1;
      if hours == 24 {
        hours := 0;
        AddDay();
      }
      hour := hours;
    }

    method AddMinute()
      requires month < 12
      modifies this
      ensures Value() == CalendarTick.AddMinute(old(Value()))
    {
      var minutes := minute + 1;
      if minutes == 60 {
        minutes := 0;
        AddHour();
      }
      minute := minutes;
    }

    /** calendar_add_second_to_date */
    method AddSecond()
      requires Valid(Value())
      modifies this
      ensures Value() == CalendarTick.AddSecond(old(Value()))
    {
      second := second + 1;
      if second == 60 {
        second := 0;
        AddMinute();
      }
    }
  }

  /** One round of the loop over the years. */
  lemma TakeOneYear(days: nat, year: nat)
    requires 1970 <= year && YearSize(year) <= days
    ensures 0 < YearSize(year) && TakeYears(days - YearSize(year), year + 1) == TakeYears(days, year)
  {
  }

  lemma LastYear(days: nat, year: nat)
    requires 1970 <= year && days < YearSize(year)
    ensures TakeYears(days, year) == (days, year)
  {
  }

  /** One round of the loop over the months. */
  lemma TakeOneMonth(days: nat, leap: bool, month: nat)
    requires month < 12 && DaysBeforeMonth(leap, month) + days < DaysBeforeMonth(leap, 12)
    requires MonthSize(leap, month) <= days
    ensures month + 1 < 12 && DaysBeforeMonth(leap, month + 1)
      + (days - MonthSize(leap, month)) < DaysBeforeMonth(leap, 12)
    ensures 0 < MonthSize(leap, month)
    ensures TakeMonths(days - MonthSize(leap, month), leap, month + 1) == TakeMonths(days, leap, month)
  {
    MonthStep(leap, month + 1);
    hide DaysBeforeMonth, MonthSize;
  }

  lemma LastMonth(days: nat, leap: bool, month: nat)
    requires month < 12 && DaysBeforeMonth(leap, month) + days < DaysBeforeMonth(leap, 12)
    requires days < MonthSize(leap, month)
    ensures TakeMonths(days, leap, month) == (days, month)
  {
  }

  /** No sum of the conversion leaves 32 bits. */
  lemma NoOverflow(d: Date)
    requires Valid(d)
    ensures Calendar.ToTimestamp(d) == SecondsSinceEpoch(d)
    ensures Wrap(SecondsSinceEpoch(d)) == SecondsSinceEpoch(d)
    ensures SecondsSinceEpoch(d)
      == d.date * 86400 + SecondOfDay(d) + DaysBeforeMonth(LeapYear(d.year), d.month) * 86400
        + DaysBeforeYear(d.year) * 86400
  {
    ValidIsBelowLimit(d);
    hide LeapYear, DaysBeforeYear;
  }

  lemma WrapFits(x: int)
    ensures Wrap(x) < 0x1_0000_0000
  {
  }

  /** Reducing after each sum gives the timestamp. */
  lemma WrappedSum(d: Date)
    requires Valid(d)
    ensures Calendar.ToTimestamp(d) ==
      Wrap(Wrap(Wrap(d.date * 86400 + d.hour * 3600 + d.minute * 60 + d.second)
        + DaysBeforeMonth(LeapYear(d.year), d.month) * 86400) + DaysBeforeYear(d.year) * 86400)
  {
    NoOverflow(d);
    hide Wrap, LeapYear, DaysBeforeYear, DaysBeforeMonth, Calendar.ToTimestamp, MonthSize, SecondsSinceEpoch;
    var inDay, inYear := d.date * 86400 + d.hour * 3600 + d.minute * 60 + d.second,
      DaysBeforeMonth(LeapYear(d.year), d.month) * 86400;
    WrapAdd(inDay, inYear);
    WrapAdd(inDay + inYear, DaysBeforeYear(d.year) * 86400);
  }

  /** The loop that adds the months before a month. */
  method AddMonths(start: nat, year: nat, month: nat) returns (timestamp: nat)
    requires month < 12 && start < 0x1_0000_0000
    ensures timestamp == Wrap(start + DaysBeforeMonth(LeapYear(year), month) * 86400)
  {
    hide LeapYear, MonthSize, Wrap;
    ghost var leap := LeapYear(year);
    ghost var sum := start;
    var dateMonth := month;
    timestamp := start;
    WrapIsIdentity(start);
    while dateMonth != 0
      invariant 0 <= dateMonth <= month
      invariant sum == start + (DaysBeforeMonth(leap, month) - DaysBeforeMonth(leap, dateMonth)) * 86400
      invariant timestamp == Wrap(sum)
    {
      MonthStep(leap, dateMonth);
      dateMonth := dateMonth - 1;
      WrapAdd(sum, MonthSize(leap, dateMonth) * 86400);
      timestamp := Wrap(timestamp + MonthSize(LeapYear(year), dateMonth) * 86400);
      sum := sum + MonthSize(leap, dateMonth) * 86400;
    }
  }

  /** The loop that adds the years since the epoch. */
  method AddYears(start: nat, year: nat) returns (timestamp: nat)
    requires 1970 <= year && start < 0x1_0000_0000
    ensures timestamp == Wrap(start + DaysBeforeYear(year) * 86400)
  {
    hide LeapYear, YearSize, Wrap;
    YearBounds();
    ghost var sum := start;
    var dateYear := year;
    timestamp := start;
    WrapIsIdentity(start);
    while dateYear > 1970
      invariant 1970 <= dateYear <= year
      invariant sum == start + (DaysBeforeYear(year) - DaysBeforeYear(dateYear)) * 86400
      invariant timestamp == Wrap(sum)
    {
      YearStep(dateYear - 1);
      dateYear := dateYear - 1;
      WrapAdd(sum, YearSize(dateYear) * 86400);
      timestamp := Wrap(timestamp + YearSize(dateYear) * 86400);
      sum := sum + YearSize(dateYear) * 86400;
    }
  }
}
