/** The carry chain that adds one second to a date, and the conversions in a time
    zone (common/services/calendar). */
module CalendarTick {
  import opened Calendar
  import opened Remainders

  // ----- The carry chain -----

  function AddYear(d: Date): Date {
    if d.year < 2105 then d.(year := d.year + 1) else d
  }

  function AddMonth(d: Date): Date {
    if d.month + 1 == 12 then AddYear(d).(month := 0) else d.(month := d.month + 1)
  }

  /** The year is held in eight bits here. */
  predicate LeapInEightBits(year: nat) {
    LeapYear(year % 256)
  }

  function AddDay(d: Date): Date
    requires d.month < 12
  {
    var endOfMonth := d.date + 1 == MonthSize(LeapInEightBits(d.year), d.month);
    var carried := if endOfMonth then AddMonth(d) else d;
    var weekday := (d.dayofweek + 1) % 256;
    carried.(
      dayofweek := if weekday == 7 then 0 else weekday,
      date := if endOfMonth then 0 else d.date + 1)
  }

  function AddHour(d: Date): Date
    requires d.month < 12
  {
    if d.hour + 1 == 24 then AddDay(d).(hour := 0) else d.(hour := d.hour + 1)
  }

  function AddMinute(d: Date): Date
    requires d.month < 12
  {
    if d.minute + 1 == 60 then AddHour(d).(minute := 0) else d.(minute := d.minute + 1)
  }

  /** calendar_add_second_to_date */
  function AddSecond(d: Date): Date
    requires Valid(d)
  {
    if d.second + 1 == 60 then AddMinute(d.(second := 0)) else d.(second := d.second + 1)
  }

  // ----- When the chain goes to the next day -----

  /** The last day before the saturated end of the calendar, and three days around
      the ends of the Februaries whose year is misjudged in eight bits. */
  predicate LosesTheDay(d: Date) {
    || (d.year == 1992 && d.month == 1 && (d.date == 27 || d.date == 28))
    || (d.year == 2100 && d.month == 1 && d.date == 27)
    || (d.year == 2105 && d.month == 11 && d.date == 30)
  }

  lemma LeapBelow256(year: nat)
    requires year < 256
    ensures LeapYear(year) <==> year % 4 == 0 && year != 100 && year != 200
  {
  }

  lemma LeapInRange(year: nat)
    requires 1970 <= year < 2106
    ensures LeapYear(year) <==> year % 4 == 0 && year != 2100
  {
  }

  lemma EightBitsMisjudge(year: nat)
    requires 1970 <= year < 2106
    ensures LeapInEightBits(year) == LeapYear(year) <==> year != 1992 && year != 2100
  {
    hide LeapYear;
    var eightBits := if year < 2048 then year - 1792 else year - 2048;
    assert year % 256 == eightBits && eightBits % 4 == year % 4;
    LeapBelow256(eightBits);
    LeapInRange(year);
  }

  lemma FebruaryOnly(d: Date)
    requires Valid(d)
    ensures (d.year != 1992 && d.year != 2100) || d.month != 1 ==>
      MonthSize(LeapInEightBits(d.year), d.month) == MonthSize(LeapYear(d.year), d.month)
    ensures d.year == 1992 && d.month == 1 ==>
      MonthSize(LeapInEightBits(d.year), 1) == 28 && MonthSize(LeapYear(d.year), 1) == 29
    ensures d.year == 2100 && d.month == 1 ==>
      MonthSize(LeapInEightBits(d.year), 1) == 29 && MonthSize(LeapYear(d.year), 1) == 28
  {
    EightBitsMisjudge(d.year);
  }

  lemma FirstOfNextMonth(d: Date)
    requires Valid(d) && !(d.year == 2105 && d.month == 11)
    requires d.date + 1 == MonthSize(LeapYear(d.year), d.month)
    ensures var next := AddMonth(d).(date := 0); Valid(next) && Days(next) == Days(d) + 1
  {
    hide LeapYear, YearSize, DaysBeforeYear, MonthSize;
    if d.month == 11 {
      NewYearsDay(d.year);
    } else {
      hide AddYear;
      MonthStep(LeapYear(d.year), d.month + 1);
    }
  }

  lemma NewYearsDay(year: nat)
    requires 1970 <= year
    ensures DaysBeforeYear(year + 1) + DaysBeforeMonth(LeapYear(year + 1), 0)
         == DaysBeforeYear(year) + DaysBeforeMonth(LeapYear(year), 11) + MonthSize(LeapYear(year), 11)
  {
    hide DaysBeforeYear, MonthSize;
    YearStep(year);
    MonthsOfYear(LeapYear(year));
    MonthStep(LeapYear(year), 12);
  }

  lemma MonthSizeBound(d: Date)
    requires Valid(d)
    ensures MonthSize(LeapYear(d.year), d.month) <= 31
    ensures d.month == 11 ==> MonthSize(LeapYear(d.year), d.month) == 31
  {
  }

  /** Off the lost days, AddDay goes to the next day of the calendar. */
  lemma NextDay(d: Date)
    requires Valid(d) && !LosesTheDay(d)
    ensures Valid(AddDay(d))
    ensures Days(AddDay(d)) == Days(d) + 1
  {
    hide LeapYear, DaysBeforeYear, DaysBeforeMonth, MonthSize;
    FebruaryOnly(d);
    MonthSizeBound(d);
    if d.date + 1 == MonthSize(LeapYear(d.year), d.month) {
      FirstOfNextMonth(d);
    }
  }

  lemma LostDay(d: Date)
    requires Valid(d) && LosesTheDay(d)
    ensures !(Valid(AddDay(d)) && Days(AddDay(d)) == Days(d) + 1)
  {
    EightBitsMisjudge(d.year);
  }

  // ----- One second more -----

  predicate LastSecondOfDay(d: Date) {
    d.hour == 23 && d.minute == 59 && d.second == 59
  }

  /** The next date is valid, one second later, and on the right day of the week. */
  predicate IsNextSecond(d: Date, next: Date)
    requires Valid(d)
  {
    && Valid(next)
    && SecondsSinceEpoch(next) == SecondsSinceEpoch(d) + 1
    && (d.dayofweek < 7 ==> next.dayofweek == (d.dayofweek + if LastSecondOfDay(d) then 1 else 0) % 7)
  }

  lemma TickInsideDay(d: Date)
    requires Valid(d) && !LastSecondOfDay(d)
    ensures IsNextSecond(d, AddSecond(d))
  {
    hide AddDay, LeapYear, DaysBeforeYear, DaysBeforeMonth;
    assert Days(AddSecond(d)) == Days(d);
  }

  lemma TickAcrossMidnight(d: Date)
    requires Valid(d) && LastSecondOfDay(d)
    ensures
      var next := AddDay(d);
      && AddSecond(d) == next.(hour := 0, minute := 0, second := 0)
      && SecondsSinceEpoch(d) == Days(d) * 86400 + 86399
      && next.dayofweek == if (d.dayofweek + 1) % 256 == 7 then 0 else (d.dayofweek + 1) % 256
  {
    hide Days, MonthSize, LeapInEightBits;
  }

  lemma TickAtMidnight(d: Date)
    requires Valid(d) && LastSecondOfDay(d)
    ensures IsNextSecond(d, AddSecond(d)) <==> Valid(AddDay(d)) && Days(AddDay(d)) == Days(d) + 1
  {
    hide AddDay, AddSecond, Days, LeapYear, MonthSize, SecondsSinceEpoch;
    TickAcrossMidnight(d);
    AddDayIsADay(d);
    if d.dayofweek < 7 {
      WeekdayStep(d.dayofweek);
    }
    MidnightOfDay(AddDay(d), AddDay(d).(hour := 0, minute := 0, second := 0));
  }

  lemma WeekdayStep(dayofweek: nat)
    requires dayofweek < 7
    ensures (if (dayofweek + 1) % 256 == 7 then 0 else (dayofweek + 1) % 256) == (dayofweek + 1) % 7
  {
  }

  lemma AddDayIsADay(d: Date)
    requires Valid(d)
    ensures
      var next := AddDay(d);
      && next.month < 12 && 1970 <= next.year
      && next.hour == d.hour && next.minute == d.minute && next.second == d.second
  {
    hide LeapYear, MonthSize;
  }

  /** For every valid date, adding a second gives the next second exactly when the
      date is not the last second of one of the four lost days. */
  lemma AddSecondExact(d: Date)
    requires Valid(d)
    ensures IsNextSecond(d, AddSecond(d)) <==> !(LosesTheDay(d) && LastSecondOfDay(d))
  {
    hide AddDay, AddSecond, Days, LeapYear, MonthSize, LosesTheDay, IsNextSecond;
    if !LastSecondOfDay(d) {
      TickInsideDay(d);
    } else {
      TickAtMidnight(d);
      if LosesTheDay(d) {
        LostDay(d);
      } else {
        NextDay(d);
      }
    }
  }

  lemma MidnightOfDay(day: Date, tick: Date)
    requires day.month < 12 && 1970 <= day.year
    requires tick == day.(hour := 0, minute := 0, second := 0)
    ensures SecondsSinceEpoch(tick) == Days(day) * 86400
    ensures day.hour < 24 && day.minute < 60 && day.second < 60 ==> (Valid(day) <==> Valid(tick))
  {
    assert Days(tick) == Days(day);
  }

  // ----- Time zones -----

  /** Unsigned 32-bit arithmetic. */
  function Wrap(x: int): nat {
    x % 0x1_0000_0000
  }

  /** The offset that the code adds; the minutes follow the sign of the hour. */
  function Offset(hour: int, min: nat): int {
    if hour >= 0 then 3600 * hour + 60 * min else 3600 * hour - 60 * min
  }

  /** calendar_timestamp_to_date_tz, in 32-bit arithmetic */
  function ToDateTz(timestamp: nat, hour: int, min: nat): Date {
    DateOf(Wrap(timestamp + Offset(hour, min)))
  }

  /** calendar_date_to_timestamp_tz */
  function ToTimestampTz(d: Date, hour: int, min: nat): int {
    var timestamp := ToTimestamp(d);
    if timestamp == 0 then 0 else Wrap(timestamp - Offset(hour, min))
  }

  /** Local time is the timestamp, moved by the hours and, in the same direction, the
      minutes of the zone, in 32 bits. */
  lemma LocalTimeIs(timestamp: nat, hour: int, min: nat)
    ensures
      var local := (timestamp + 3600 * hour + (if hour >= 0 then 60 * min else -60 * min)) % 0x1_0000_0000;
      var d := ToDateTz(timestamp, hour, min);
      Normal(d) && SecondsSinceEpoch(d) == local && d.dayofweek == Weekday(Days(d))
  {
    hide DateOf;
    DateOfIsTheDate(Wrap(timestamp + Offset(hour, min)));
  }

  /** And back; a date that is not valid, and the epoch itself, give zero. */
  lemma TimestampOfLocalTime(d: Date, hour: int, min: nat)
    ensures ToTimestampTz(d, hour, min) ==
      if Valid(d) && SecondsSinceEpoch(d) != 0 then
        (SecondsSinceEpoch(d) - 3600 * hour - (if hour >= 0 then 60 * min else -60 * min)) % 0x1_0000_0000
      else 0
  {
    hide SecondsSinceEpoch, Valid;
  }

  lemma WrapAdd(x: int, y: int)
    ensures Wrap(Wrap(x) + y) == Wrap(x + y)
  {
    var q := x / 0x1_0000_0000;
    assert x == 0x1_0000_0000 * q + Wrap(x);
    RemainderIs(x + y, 0x1_0000_0000, q + (Wrap(x) + y) / 0x1_0000_0000, Wrap(Wrap(x) + y));
  }

  lemma WrapIsIdentity(x: nat)
    ensures x < 0x1_0000_0000 ==> Wrap(x) == x
  {
  }

  /** For every 32-bit timestamp and every offset, converting to local time and
      back returns the timestamp exactly when the local timestamp lies strictly
      between zero and the year 2106, or the timestamp itself is zero. */
  lemma TimestampRoundTripTz(timestamp: nat, hour: int, min: nat)
    requires timestamp < 0x1_0000_0000
    ensures ToTimestampTz(ToDateTz(timestamp, hour, min), hour, min) == timestamp
      <==> timestamp == 0 || 0 < Wrap(timestamp + Offset(hour, min)) < LIMIT
  {
    var local := Wrap(timestamp + Offset(hour, min));
    hide Wrap, DateOf, Offset, Valid;
    TimestampRoundTrip(local);
    WrapAdd(timestamp + Offset(hour, min), -Offset(hour, min));
    WrapIsIdentity(timestamp);
  }

  /** Every valid local date but the epoch itself comes back from its timestamp. */
  lemma DateRoundTripTz(d: Date, hour: int, min: nat)
    requires Valid(d) && ToTimestamp(d) != 0
    ensures 0 <= ToTimestampTz(d, hour, min) < 0x1_0000_0000
    ensures ToDateTz(ToTimestampTz(d, hour, min), hour, min) == d.(dayofweek := Weekday(Days(d)))
  {
    hide DateOf, Valid, Days;
    DateRoundTrip(d);
    WrapAdd(ToTimestamp(d) - Offset(hour, min), Offset(hour, min));
    WrapIsIdentity(ToTimestamp(d));
  }
}
