/**
 * A calendar date on top of a time stamp. `Date extends TimeStamp`: its `clock` is the time
 * stamp part, its own `skipHour` replaces the inherited one, and the inherited `skipMinute` and
 * `skipSecond` reach that replacement when they carry into the hour, so a carry out of 23:59:59
 * also moves the date on by one day.
 */
module Dates {
  import opened Wrappers
  import opened Arithmetic
  import opened Decimal
  import opened TimeStamps

  /**
   * isLeapYear: divisible by 4 but not by 100, or divisible by 400. Java's `%` differs from
   * Dafny's only in sign, so the two agree on whether a remainder is zero.
   */
  predicate IsLeapYear(year: int)
    ensures IsLeapYear(year) ==> year % 4 == 0
    ensures year % 100 != 0 ==> (IsLeapYear(year) <==> year % 4 == 0)
    ensures year % 100 == 0 ==> (IsLeapYear(year) <==> year % 400 == 0)
  {
    (year % 4 == 0 && year % 100 != 0) || year % 400 == 0
  }

  /** getDaysInMonth: 30 for April, June, September and November, 29 or 28 for February, 31 otherwise. */
  function DaysInMonth(year: int, month: int): (days: int)
    requires 1 <= month <= 12
    ensures 28 <= days <= 31
    ensures month == 2 ==> (days == 29 <==> IsLeapYear(year))
  {
    if month == 4 || month == 6 || month == 9 || month == 11 then 30
    else if month == 2 then (if IsLeapYear(year) then 29 else 28)
    else 31
  }

  /** valid(year, month, day), whose own assertions demand a positive day and a month in 1..12. */
  predicate ValidDate(year: int, month: int, day: int)
    requires day > 0 && 1 <= month <= 12
    ensures day <= 28 ==> ValidDate(year, month, day)
    ensures day > 31 ==> !ValidDate(year, month, day)
    ensures month == 2 && day == 29 ==> (ValidDate(year, month, day) <==> IsLeapYear(year))
    ensures day == 31 ==> (ValidDate(year, month, day) <==> month !in {2, 4, 6, 9, 11})
    ensures day == 30 ==> (ValidDate(year, month, day) <==> month != 2)
  {
    1 <= day <= DaysInMonth(year, month)
  }

  /** What the constructors assert: the assertions of `valid` and its verdict. */
  predicate IsCalendarDate(year: int, month: int, day: int) {
    day > 0 && 1 <= month <= 12 && ValidDate(year, month, day)
  }

  /** The six fields of a date, as a value. */
  datatype DateTime = DateTime(year: int, month: int, day: int, clock: Clock)

  predicate IsCalendar(dt: DateTime) {
    IsCalendarDate(dt.year, dt.month, dt.day)
  }

  /**
   * What every Date keeps: a month in 1..12, a positive day and a bounded clock. The day may lie
   * past the end of its month, since setYear and skipYear never look at it.
   */
  predicate IsWellFormed(dt: DateTime) {
    1 <= dt.month <= 12 && dt.day >= 1 && IsBounded(dt.clock)
  }

  /** skipYear: only the year changes. */
  function NextYear(dt: DateTime): DateTime {
    dt.(year := dt.year + 1)
  }

  /** February 29 of a leap year is a date; skipYear turns it into February 29 of a common year, which is not. */
  lemma LeapDayNotClamped()
    ensures IsCalendar(DateTime(2024, 2, 29, Clock(0, 0, 0)))
    ensures NextYear(DateTime(2024, 2, 29, Clock(0, 0, 0))) == DateTime(2025, 2, 29, Clock(0, 0, 0))
    ensures !IsCalendar(DateTime(2025, 2, 29, Clock(0, 0, 0)))
  {
    assert IsLeapYear(2024) && !IsLeapYear(2025);
  }

  /** The number of whole months from year 0 to the start of the month. */
  function MonthNumber(dt: DateTime): int {
    dt.year * 12 + dt.month - 1
  }

  /**
   * skipMonth: December goes to January of the next year, any other month to the next one, and
   * a day past the end of the new month becomes its last day.
   */
  function NextMonth(dt: DateTime): (r: DateTime)
    requires 1 <= dt.month <= 12
    ensures MonthNumber(r) == MonthNumber(dt) + 1
    ensures r.clock == dt.clock && 1 <= r.month <= 12
    ensures dt.day >= 1 ==> IsCalendar(r)
    ensures r.day == dt.day || r.day == DaysInMonth(r.year, r.month) < dt.day
  {
    var moved := if dt.month == 12 then dt.(month := 1, year := dt.year + 1) else dt.(month := dt.month + 1);
    var days := DaysInMonth(moved.year, moved.month);
    if moved.day > days then moved.(day := days) else moved
  }

  /** skipDay: the last day of a month goes to day 1 of the next month, any other day to the next one. */
  function NextDay(dt: DateTime): (r: DateTime)
    requires 1 <= dt.month <= 12
    ensures r.clock == dt.clock && 1 <= r.month <= 12
    ensures dt.day >= 1 ==> r.day >= 1
  {
    if dt.day == DaysInMonth(dt.year, dt.month) then NextMonth(dt.(day := 1)) else dt.(day := dt.day + 1)
  }

  function YearLength(year: int): int {
    if IsLeapYear(year) then 366 else 365
  }

  /** The number of days from the start of year 0 to the start of `year` (negative before year 0). */
  function DaysBeforeYear(year: int): int
    decreases if year > 0 then year else -year
  {
    if year == 0 then 0
    else if year > 0 then DaysBeforeYear(year - 1) + YearLength(year - 1)
    else DaysBeforeYear(year + 1) - YearLength(year)
  }

  /** The number of days in the months of `year` before `month`. */
  function DaysBeforeMonth(year: int, month: int): int
    requires 1 <= month <= 13
  {
    if month == 1 then 0 else DaysBeforeMonth(year, month - 1) + DaysInMonth(year, month - 1)
  }

  /** The proleptic day number of a date: consecutive calendar days have consecutive numbers. */
  function DayNumber(dt: DateTime): int
    requires 1 <= dt.month <= 12
  {
    DaysBeforeYear(dt.year) + DaysBeforeMonth(dt.year, dt.month) + dt.day - 1
  }

  /** Each year starts one year length after the one before. */
  lemma YearsFollow(year: int)
    ensures DaysBeforeYear(year + 1) == DaysBeforeYear(year) + YearLength(year)
  {
  }

  /** The twelve months of a year add up to its length. */
  lemma MonthsFillYear(year: int)
    ensures DaysBeforeMonth(year, 13) == YearLength(year)
  {
    var february := DaysInMonth(year, 2);
    assert DaysBeforeMonth(year, 2) == 31;
    assert DaysBeforeMonth(year, 3) == 31 + february;
    assert DaysBeforeMonth(year, 4) == 62 + february;
    assert DaysBeforeMonth(year, 5) == 92 + february;
    assert DaysBeforeMonth(year, 6) == 123 + february;
    assert DaysBeforeMonth(year, 7) == 153 + february;
    assert DaysBeforeMonth(year, 8) == 184 + february;
    assert DaysBeforeMonth(year, 9) == 215 + february;
    assert DaysBeforeMonth(year, 10) == 245 + february;
    assert DaysBeforeMonth(year, 11) == 276 + february;
    assert DaysBeforeMonth(year, 12) == 306 + february;
  }

  /** skipDay moves a calendar date to the calendar date whose day number is one higher. */
  lemma NextDayCounts(dt: DateTime)
    requires IsCalendar(dt)
    ensures IsCalendar(NextDay(dt))
    ensures DayNumber(NextDay(dt)) == DayNumber(dt) + 1
  {
    if dt.day == DaysInMonth(dt.year, dt.month) && dt.month == 12 {
      YearsFollow(dt.year);
      MonthsFillYear(dt.year);
    }
  }

  /** The seconds elapsed since the start of day 0. */
  function Instant(dt: DateTime): int
    requires 1 <= dt.month <= 12
  {
    DayNumber(dt) * 86400 + SecondOfDay(dt.clock)
  }

  /** A complete date: a calendar date and a valid time. */
  predicate IsComplete(dt: DateTime) {
    IsCalendar(dt) && IsValid(dt.clock)
  }

  /** skipHour on a Date: the time stamp's skipHour, then skipDay when the hour has become 0. */
  function DateNextHour(dt: DateTime): DateTime
    requires 1 <= dt.month <= 12
  {
    var c := NextHour(dt.clock);
    if c.hours == 0 then NextDay(dt.(clock := c)) else dt.(clock := c)
  }

  /** The inherited skipMinute, whose carry calls the Date's skipHour. */
  function DateNextMinute(dt: DateTime): DateTime
    requires 1 <= dt.month <= 12
  {
    if dt.clock.minutes == 59 then DateNextHour(dt.(clock := dt.clock.(minutes := 0)))
    else dt.(clock := dt.clock.(minutes := dt.clock.minutes + 1))
  }

  /** The inherited skipSecond, whose carry calls the inherited skipMinute. */
  function DateNextSecond(dt: DateTime): DateTime
    requires 1 <= dt.month <= 12
  {
    if dt.clock.seconds == 59 then DateNextMinute(dt.(clock := dt.clock.(seconds := 0)))
    else dt.(clock := dt.clock.(seconds := dt.clock.seconds + 1))
  }

  /** skipHour on a complete date is one hour later, across a change of day, month or year. */
  lemma DateNextHourCounts(dt: DateTime)
    requires IsComplete(dt)
    ensures IsComplete(DateNextHour(dt))
    ensures Instant(DateNextHour(dt)) == Instant(dt) + 3600
  {
    if dt.clock.hours == 23 {
      NextDayCounts(dt.(clock := NextHour(dt.clock)));
    }
  }

  /** skipMinute on a complete date is one minute later. */
  lemma DateNextMinuteCounts(dt: DateTime)
    requires IsComplete(dt)
    ensures IsComplete(DateNextMinute(dt))
    ensures Instant(DateNextMinute(dt)) == Instant(dt) + 60
  {
    if dt.clock.minutes == 59 {
      DateNextHourCounts(dt.(clock := dt.clock.(minutes := 0)));
    }
  }

  /** skipSecond on a complete date is one second later. */
  lemma DateNextSecondCounts(dt: DateTime)
    requires IsComplete(dt)
    ensures IsComplete(DateNextSecond(dt))
    ensures Instant(DateNextSecond(dt)) == Instant(dt) + 1
  {
    if dt.clock.seconds == 59 {
      DateNextMinuteCounts(dt.(clock := dt.clock.(seconds := 0)));
    }
  }

  /**
   * The hour, minute and second sums of skipTime after its two normalising tests as written:
   * the second test reads the seconds again, which the first has already brought below 60, so
   * the minutes are never carried into the hours.
   */
  function SkipTimeSums(c: Clock, t: Clock): (sums: Clock)
    ensures sums.seconds < 60
  {
    var hours, minutes, seconds := c.hours + t.hours, c.minutes + t.minutes, c.seconds + t.seconds;
    var minutes', seconds' := if seconds >= 60 then minutes + seconds / 60 else minutes,
                              if seconds >= 60 then seconds % 60 else seconds;
    var (hours', minutes'') := CarryMinutes(seconds' >= 60, hours, minutes');
    Clock(hours', minutes'', seconds')
  }

  /** The second normalising step of skipTime: when `test` holds, whole hours move out of the minutes. */
  function CarryMinutes(test: bool, hours: int, minutes: int): (int, int) {
    if test then (hours + JavaDiv(minutes, 60), JavaRem(minutes, 60)) else (hours, minutes)
  }

  /** skipTime as written throws from setMinutes's assertion when the minute sum reaches 60. */
  predicate SkipTimeFails(dt: DateTime, t: Clock) {
    SkipTimeSums(dt.clock, t).minutes >= 60
  }

  /**
   * The date after skipTime as written: a day is skipped when the hour sum reaches 24, the hours
   * are set, and then, unless setMinutes throws, the minutes and seconds.
   */
  function SkipTimeAsWritten(dt: DateTime, t: Clock): (r: DateTime)
    requires 1 <= dt.month <= 12
    ensures SkipTimeFails(dt, t) ==> r.clock.minutes == dt.clock.minutes && r.clock.seconds == dt.clock.seconds
    ensures IsBounded(dt.clock) ==> IsBounded(r.clock)
  {
    var sums := SkipTimeSums(dt.clock, t);
    var moved := if sums.hours >= 24 then NextDay(dt) else dt;
    var hours := if sums.hours >= 24 then sums.hours % 24 else sums.hours;
    if SkipTimeFails(dt, t) then moved.(clock := moved.clock.(hours := hours))
    else moved.(clock := Clock(hours, sums.minutes, sums.seconds))
  }

  /** skipTime with the evident intent: seconds carry into minutes, minutes into hours, hours into the date. */
  function SkipTimeCorrected(dt: DateTime, t: Clock): (r: DateTime)
    requires 1 <= dt.month <= 12
    ensures 1 <= r.month <= 12 && IsBounded(r.clock)
  {
    var hours, minutes, seconds := dt.clock.hours + t.hours, dt.clock.minutes + t.minutes, dt.clock.seconds + t.seconds;
    var minutes', seconds' := if seconds >= 60 then minutes + seconds / 60 else minutes,
                              if seconds >= 60 then seconds % 60 else seconds;
    var hours', minutes'' := if minutes' >= 60 then hours + minutes' / 60 else hours,
                             if minutes' >= 60 then minutes' % 60 else minutes';
    var moved := if hours' >= 24 then NextDay(dt) else dt;
    moved.(clock := Clock(if hours' >= 24 then hours' % 24 else hours', minutes'', seconds'))
  }

  /** The corrected skipTime moves a complete date on by exactly the time added. */
  lemma SkipTimeCorrectedCounts(dt: DateTime, t: Clock)
    requires IsComplete(dt) && IsValid(t)
    ensures IsComplete(SkipTimeCorrected(dt, t))
    ensures Instant(SkipTimeCorrected(dt, t)) == Instant(dt) + SecondOfDay(t)
  {
    var c := dt.clock;
    var seconds := c.seconds + t.seconds;
    var carry := if seconds >= 60 then 1 else 0;
    var minutes := c.minutes + t.minutes + carry;
    var carry' := if minutes >= 60 then 1 else 0;
    var hours := c.hours + t.hours + carry';
    DivMod(seconds, 60, carry, seconds - 60 * carry);
    DivMod(minutes, 60, carry', minutes - 60 * carry');
    var r := SkipTimeCorrected(dt, t);
    assert r.clock == Clock(if hours >= 24 then hours - 24 else hours, minutes - 60 * carry', seconds - 60 * carry);
    if hours >= 24 {
      DivMod(hours, 24, 1, hours - 24);
      NextDayCounts(dt);
    }
  }

  /** Where skipTime as written does not throw, it computes the corrected result. */
  lemma AsWrittenAgreesUnlessFails(dt: DateTime, t: Clock)
    requires IsComplete(dt) && IsValid(t)
    ensures !SkipTimeFails(dt, t) ==> SkipTimeAsWritten(dt, t) == SkipTimeCorrected(dt, t)
  {
  }

  /** 00:30:00 plus 00:30:00 reaches the minute 60 that setMinutes rejects, so skipTime as written throws. */
  lemma SkipTimeAsWrittenFails()
    ensures SkipTimeFails(DateTime(2025, 1, 1, Clock(0, 30, 0)), Clock(0, 30, 0))
    ensures SkipTimeCorrected(DateTime(2025, 1, 1, Clock(0, 30, 0)), Clock(0, 30, 0)) == DateTime(2025, 1, 1, Clock(1, 0, 0))
  {
  }

  /** toString: "YYYY-MM-DD " and the time stamp's text, month and day with a leading zero below 10. */
  function DateString(dt: DateTime): (s: string)
    ensures IsComplete(dt) ==> |s| > 15 && s[|s| - 9] == ' '
  {
    IntToString(dt.year) + DateTail(dt)
  }

  /** Reads the text of a date back: the year is everything before the last fifteen characters. */
  function ParseDateString(s: string): Option<DateTime> {
    if |s| <= 15 then None
    else
      var n := |s| - 15;
      var year, tail := ParseInt(s[..n]), s[n..];
      if year.Some? && tail[0] == '-' && tail[3] == '-' && tail[6] == ' ' && AllDigits(tail[1..3]) && AllDigits(tail[4..6])
        && ParseClock(tail[7..]).Some?
      then Some(DateTime(year.value, ParseNat(tail[1..3]), ParseNat(tail[4..6]), ParseClock(tail[7..]).value))
      else None
  }

  /** The text of a complete date reads back as that date. */
  lemma ParseDateStringInverse(dt: DateTime)
    requires IsComplete(dt)
    ensures ParseDateString(DateString(dt)) == Some(dt)
  {
    var y := IntToString(dt.year);
    var tail := DateTail(dt);
    var s := DateString(dt);
    assert s == y + tail;
    assert s[..|y|] == y && s[|y|..] == tail;
    ParseIntToString(dt.year);
    DateTailParts(dt);
  }

  /** What toString writes after the year. */
  function DateTail(dt: DateTime): string {
    "-" + Padded(dt.month) + "-" + Padded(dt.day) + " " + ClockString(dt.clock)
  }

  /** The fifteen characters after the year, field by field. */
  lemma DateTailParts(dt: DateTime)
    requires IsComplete(dt)
    ensures var tail := DateTail(dt);
      |tail| == 15 && tail[0] == '-' && tail[3] == '-' && tail[6] == ' ' &&
      tail[1..3] == Padded(dt.month) && tail[4..6] == Padded(dt.day) && ParseClock(tail[7..]) == Some(dt.clock)
  {
    var tail := DateTail(dt);
    assert tail[7..] == ClockString(dt.clock);
    ParseClockString(dt.clock);
  }

  class Date {
    var year: int
    var month: int
    var day: int
    /** The TimeStamp part this Date extends. */
    const clock: TimeStamp

    predicate Valid()
      reads this, clock
    {
      IsWellFormed(Value())
    }

    function Value(): DateTime
      reads this, clock
    {
      DateTime(year, month, day, clock.Value())
    }

    /** Date(year, month, day): at midnight. */
    constructor (year: int, month: int, day: int)
      requires IsCalendarDate(year, month, day)
      ensures Valid() && fresh(clock) && Value() == DateTime(year, month, day, Clock(0, 0, 0))
    {
      clock := new TimeStamp(0, 0, 0);
      this.year := year;
      this.month := month;
      this.day := day;
    }

    /** Date(year, month, day, hours, minutes, seconds). */
    constructor WithTime(year: int, month: int, day: int, hours: int, minutes: int, seconds: int)
      requires hours < 24 && minutes < 60 && seconds < 60
      requires IsCalendarDate(year, month, day)
      ensures Valid() && fresh(clock) && Value() == DateTime(year, month, day, Clock(hours, minutes, seconds))
    {
      clock := new TimeStamp(hours, minutes, seconds);
      this.year := year;
      this.month := month;
      this.day := day;
    }

    method SkipDay()
      requires Valid()
      modifies this
      ensures Valid() && Value() == NextDay(old(Value()))
    {
      var daysInMonth := DaysInMonth(year, month);
      if day == daysInMonth {
        day := 1;
        SkipMonth();
      } else {
        day := day + 1;
      }
    }

    method SkipMonth()
      requires Valid()
      modifies this
      ensures Valid() && Value() == NextMonth(old(Value()))
    {
      if month == 12 {
        month := 1;
        SkipYear();
      } else {
        month := month + 1;
      }
      var daysInMonth := DaysInMonth(year, month);
      if day > daysInMonth {
        day := daysInMonth;
      }
    }

    method SkipYear()
      requires Valid()
      modifies this
      ensures Valid() && Value() == NextYear(old(Value()))
    {
      year := year + 1;
    }

    method SkipHour()
      requires Valid()
      modifies this, clock
      ensures Valid() && Value() == DateNextHour(old(Value()))
    {
      clock.SkipHour();
      if clock.hours == 0 {
        SkipDay();
      }
    }

    /** The inherited skipMinute: its carry reaches this class's skipHour. */
    method SkipMinute()
      requires Valid()
      modifies this, clock
      ensures Valid() && Value() == DateNextMinute(old(Value()))
    {
      if clock.minutes == 59 {
        clock.minutes := 0;
        SkipHour();
      } else {
        clock.minutes := clock.minutes + 1;
      }
    }

    /** The inherited skipSecond: its carry reaches the inherited skipMinute. */
    method SkipSecond()
      requires Valid()
      modifies this, clock
      ensures Valid() && Value() == DateNextSecond(old(Value()))
    {
      if clock.seconds == 59 {
        clock.seconds := 0;
        SkipMinute();
      } else {
        clock.seconds := clock.seconds + 1;
      }
    }

    /**
     * skipTime(time) as written. When the minute sum reaches 60 the assertion in setMinutes
     * throws after the day may have been skipped and the hours set; that outcome is
     * Err(AssertionFailed), with the state the object is left in.
     */
    method SkipTime(time: TimeStamp) returns (r: Result<()>)
      requires Valid()
      modifies this, clock
      ensures Valid() && Value() == SkipTimeAsWritten(old(Value()), old(time.Value()))
      ensures r.Err? <==> SkipTimeFails(old(Value()), old(time.Value()))
      ensures r.Err? ==> r.error == AssertionFailed
    {
      var newHours := clock.hours + time.hours;
      var newMinutes := clock.minutes + time.minutes;
      var newSeconds := clock.seconds + time.seconds;
      if newSeconds >= 60 {
        newMinutes := newMinutes + newSeconds / 60;
        newSeconds := newSeconds % 60;
      }
      var carried := CarryMinutes(newSeconds >= 60, newHours, newMinutes);
      newHours, newMinutes := carried.0, carried.1;
      if newHours >= 24 {
        newHours := newHours % 24;
        SkipDay();
      }
      clock.SetHours(newHours);
      if newMinutes >= 60 {
        return Err(AssertionFailed);
      }
      clock.SetMinutes(newMinutes);
      clock.SetSeconds(newSeconds);
      r := Ok(());
    }

    method SetYear(year: int)
      requires Valid()
      modifies this
      ensures Valid() && Value() == old(Value()).(year := year)
    {
      this.year := year;
    }

    method SetMonth(month: int)
      requires Valid() && IsCalendarDate(year, month, day)
      modifies this
      ensures Valid() && Value() == old(Value()).(month := month)
    {
      this.month := month;
    }

    method SetDay(day: int)
      requires Valid() && IsCalendarDate(year, month, day)
      modifies this
      ensures Valid() && Value() == old(Value()).(day := day)
    {
      this.day := day;
    }

    /** clone() as written: a new Date(year, month, month), so the day becomes the month and the time midnight. */
    method Clone() returns (d: Date)
      requires Valid()
      ensures fresh(d) && fresh(d.clock) && d.Valid()
      ensures d.Value() == DateTime(year, month, month, Clock(0, 0, 0))
    {
      d := new Date(year, month, month);
    }

    function ToString(): (s: string)
      reads this, clock
      ensures IsComplete(Value()) ==> ParseDateString(s) == Some(Value())
    {
      if IsComplete(Value()) then ParseDateStringInverse(Value()); DateString(Value())
      else DateString(Value())
    }
  }
}
