/**
 * A time of day in hours, minutes and seconds. The constructors and setters assert only the
 * upper bounds (hours below 24, minutes and seconds below 60), so negative fields are possible;
 * `valid` is the full range check. The `skip` methods advance the time in place with carries.
 */
module TimeStamps {
  import opened Wrappers
  import opened Arithmetic
  import opened Decimal

  /** The three fields of a time stamp, as a value. */
  datatype Clock = Clock(hours: int, minutes: int, seconds: int)

  /** valid(hours, minutes, seconds): every field within its range. */
  predicate IsValid(c: Clock)
    ensures IsValid(c) <==> IsBounded(c) && c.hours >= 0 && c.minutes >= 0 && c.seconds >= 0
    ensures IsValid(c) ==> 0 <= SecondOfDay(c) < 86400
  {
    0 <= c.hours < 24 && 0 <= c.minutes < 60 && 0 <= c.seconds < 60
  }

  /** The upper bounds the constructors and setters assert; every method keeps them. */
  predicate IsBounded(c: Clock) {
    c.hours < 24 && c.minutes < 60 && c.seconds < 60
  }

  /** The number of seconds since midnight. */
  function SecondOfDay(c: Clock): int {
    c.hours * 3600 + c.minutes * 60 + c.seconds
  }

  /** A valid time is one of the 86400 seconds of a day, and each second has exactly one valid time. */
  lemma SecondOfDayIsOneToOne(c: Clock, d: Clock)
    requires IsValid(c) && IsValid(d)
    ensures 0 <= SecondOfDay(c) < 86400
    ensures SecondOfDay(c) == SecondOfDay(d) ==> c == d
  {
    if SecondOfDay(c) == SecondOfDay(d) {
      DivMod(SecondOfDay(c), 3600, c.hours, c.minutes * 60 + c.seconds);
      DivMod(SecondOfDay(d), 3600, d.hours, d.minutes * 60 + d.seconds);
      DivMod(c.minutes * 60 + c.seconds, 60, c.minutes, c.seconds);
      DivMod(d.minutes * 60 + d.seconds, 60, d.minutes, d.seconds);
    }
  }

  /** skipHour: 23 wraps to 0, any other hour goes up by one. */
  function NextHour(c: Clock): (r: Clock)
    ensures r.minutes == c.minutes && r.seconds == c.seconds
    ensures IsValid(c) ==> IsValid(r) && SecondOfDay(r) == (SecondOfDay(c) + 3600) % 86400
  {
    if c.hours == 23 then c.(hours := 0) else c.(hours := c.hours + 1)
  }

  /** skipMinute on a TimeStamp: 59 wraps to 0 and carries into the hour, any other minute goes up by one. */
  function NextMinute(c: Clock): (r: Clock)
    ensures r.seconds == c.seconds
    ensures IsValid(c) ==> IsValid(r) && SecondOfDay(r) == (SecondOfDay(c) + 60) % 86400
  {
    if c.minutes == 59 then NextHour(c.(minutes := 0)) else c.(minutes := c.minutes + 1)
  }

  /** skipSecond on a TimeStamp: 59 wraps to 0 and carries into the minute, any other second goes up by one. */
  function NextSecond(c: Clock): (r: Clock)
    ensures IsValid(c) ==> IsValid(r) && SecondOfDay(r) == (SecondOfDay(c) + 1) % 86400
  {
    if c.seconds == 59 then NextMinute(c.(seconds := 0)) else c.(seconds := c.seconds + 1)
  }

  /**
   * skipTime: the fields are added one by one, a second total of 60 or more carries one minute,
   * a minute total of 60 or more carries one hour, and each field is then reduced with Java's `%`.
   */
  function AddClock(c: Clock, t: Clock): Clock {
    Normalized(Clock(c.hours + t.hours, c.minutes + t.minutes, c.seconds + t.seconds))
  }

  /** The normalisation of skipTime applied to field sums. */
  function Normalized(sum: Clock): Clock {
    var minutes := if sum.seconds >= 60 then sum.minutes + 1 else sum.minutes;
    var hours := if minutes >= 60 then sum.hours + 1 else sum.hours;
    Clock(JavaRem(hours, 24), JavaRem(minutes, 60), JavaRem(sum.seconds, 60))
  }

  /** Adding two valid times gives the valid time whose second of the day is the sum modulo a day. */
  lemma AddClockCounts(c: Clock, t: Clock)
    requires IsValid(c) && IsValid(t)
    ensures IsValid(AddClock(c, t))
    ensures SecondOfDay(AddClock(c, t)) == (SecondOfDay(c) + SecondOfDay(t)) % 86400
  {
    var seconds := c.seconds + t.seconds;
    var carry := if seconds >= 60 then 1 else 0;
    var minutes := c.minutes + t.minutes + carry;
    var carry' := if minutes >= 60 then 1 else 0;
    var hours := c.hours + t.hours + carry';
    var day := if hours >= 24 then 1 else 0;
    DivMod(seconds, 60, carry, seconds - 60 * carry);
    DivMod(minutes, 60, carry', minutes - 60 * carry');
    DivMod(hours, 24, day, hours - 24 * day);
    var r := AddClock(c, t);
    assert r == Clock(hours - 24 * day, minutes - 60 * carry', seconds - 60 * carry);
    DivMod(SecondOfDay(c) + SecondOfDay(t), 86400, day, SecondOfDay(r));
  }

  /** The sum worked out by hand in the time stamp tests: 10:30:45 plus 5:45:30 is 16:16:15. */
  lemma AddClockExample()
    ensures AddClock(Clock(10, 30, 45), Clock(5, 45, 30)) == Clock(16, 16, 15)
  {
    assert JavaRem(16, 24) == 16 && JavaRem(76, 60) == 16 && JavaRem(75, 60) == 15;
  }

  /** toString: "HH:MM:SS", each field with a leading zero below 10. */
  function ClockString(c: Clock): (s: string)
    ensures IsValid(c) ==> |s| == 8 && s[2] == ':' && s[5] == ':'
  {
    Padded(c.hours) + ":" + Padded(c.minutes) + ":" + Padded(c.seconds)
  }

  /** Reads "HH:MM:SS" back into a clock; None for any other shape. */
  function ParseClock(s: string): Option<Clock> {
    if |s| == 8 && s[2] == ':' && s[5] == ':' && AllDigits(s[0..2]) && AllDigits(s[3..5]) && AllDigits(s[6..8])
    then Some(Clock(ParseNat(s[0..2]), ParseNat(s[3..5]), ParseNat(s[6..8])))
    else None
  }

  /** The text of a valid time reads back as that time. */
  lemma ParseClockString(c: Clock)
    requires IsValid(c)
    ensures ParseClock(ClockString(c)) == Some(c)
  {
    var s := ClockString(c);
    assert s[0..2] == Padded(c.hours);
    assert s[3..5] == Padded(c.minutes);
    assert s[6..8] == Padded(c.seconds);
  }

  /** The text of the time stamp tests: 9:05:03 is "09:05:03". */
  lemma ClockStringExample()
    ensures ClockString(Clock(9, 5, 3)) == "09:05:03"
  {
    assert Padded(9) == "09" && Padded(5) == "05" && Padded(3) == "03";
  }

  class TimeStamp {
    var hours: int
    var minutes: int
    var seconds: int

    predicate Bounded()
      reads this
    {
      IsBounded(Value())
    }

    function Value(): Clock
      reads this
    {
      Clock(hours, minutes, seconds)
    }

    /** TimeStamp(hours, minutes, seconds). */
    constructor (hours: int, minutes: int, seconds: int)
      requires hours < 24 && minutes < 60 && seconds < 60
      ensures Bounded() && Value() == Clock(hours, minutes, seconds)
    {
      this.hours := hours;
      this.minutes := minutes;
      this.seconds := seconds;
    }

    /** TimeStamp(): midnight. */
    constructor Midnight()
      ensures Bounded() && Value() == Clock(0, 0, 0)
    {
      hours, minutes, seconds := 0, 0, 0;
    }

    /** TimeStamp(hours): minutes and seconds zero. */
    constructor OfHours(hours: int)
      requires hours < 24
      ensures Bounded() && Value() == Clock(hours, 0, 0)
    {
      this.hours := hours;
      minutes, seconds := 0, 0;
    }

    /** TimeStamp(hours, minutes): seconds zero. */
    constructor OfHoursMinutes(hours: int, minutes: int)
      requires hours < 24 && minutes < 60
      ensures Bounded() && Value() == Clock(hours, minutes, 0)
    {
      this.hours := hours;
      this.minutes := minutes;
      seconds := 0;
    }

    method SetHours(hours: int)
      requires Bounded() && hours < 24
      modifies this
      ensures Bounded() && Value() == old(Value()).(hours := hours)
    {
      this.hours := hours;
    }

    method SetMinutes(minutes: int)
      requires Bounded() && minutes < 60
      modifies this
      ensures Bounded() && Value() == old(Value()).(minutes := minutes)
    {
      this.minutes := minutes;
    }

    method SetSeconds(seconds: int)
      requires Bounded() && seconds < 60
      modifies this
      ensures Bounded() && Value() == old(Value()).(seconds := seconds)
    {
      this.seconds := seconds;
    }

    method SkipHour()
      requires Bounded()
      modifies this
      ensures Bounded() && Value() == NextHour(old(Value()))
    {
      if hours == 23 {
        hours := 0;
      } else {
        hours := hours + 1;
      }
    }

    method SkipMinute()
      requires Bounded()
      modifies this
      ensures Bounded() && Value() == NextMinute(old(Value()))
    {
      if minutes == 59 {
        minutes := 0;
        SkipHour();
      } else {
        minutes := minutes + 1;
      }
    }

    method SkipSecond()
      requires Bounded()
      modifies this
      ensures Bounded() && Value() == NextSecond(old(Value()))
    {
      if seconds == 59 {
        seconds := 0;
        SkipMinute();
      } else {
        seconds := seconds + 1;
      }
    }

    /** skipTime(time); `time` may be this very object, whose fields are each read before they are written. */
    method SkipTime(time: TimeStamp)
      requires Bounded()
      modifies this
      ensures Bounded() && Value() == AddClock(old(Value()), old(time.Value()))
    {
      hours := hours + time.hours;
      minutes := minutes + time.minutes;
      seconds := seconds + time.seconds;
      if seconds >= 60 {
        minutes := minutes + 1;
      }
      if minutes >= 60 {
        hours := hours + 1;
      }
      minutes := JavaRem(minutes, 60);
      seconds := JavaRem(seconds, 60);
      hours := JavaRem(hours, 24);
    }

    /** clone(): a new time stamp with the same fields. */
    method Clone() returns (t: TimeStamp)
      requires Bounded()
      ensures fresh(t) && t.Bounded() && t.Value() == Value()
    {
      t := new TimeStamp(hours, minutes, seconds);
    }

    function ToString(): (s: string)
      reads this
      ensures IsValid(Value()) ==> |s| == 8 && ParseClock(s) == Some(Value())
    {
      if IsValid(Value()) then ParseClockString(Value()); ClockString(Value())
      else ClockString(Value())
    }
  }
}
