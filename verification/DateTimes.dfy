/** DateTime: conversion to and from microsecond timestamps. */
module DateTimes {
  import opened Calendar

  datatype TimestampReference = MicroSecondsSinceUnixTimeOrigin | MicroSecondsSinceJulianDateOrigin

  datatype TimeOfDay = TimeOfDay(hour: int, minute: int, second: int, microsecond: int)

  const TIME_DIFFERENCE_JULIAN_2_UNIX := 210866803200000000
  const USECS_PER_DAY := 86400000000

  /** Division and remainder of the source language: the quotient is cut towards zero. */
  function Quot(a: int, b: int): int
    requires b > 0
  {
    if a >= 0 then a / b else -(-a / b)
  }

  function Rem(a: int, b: int): (r: int)
    requires b > 0
    ensures a == b * Quot(a, b) + r && -b < r < b
    ensures a >= 0 ==> r >= 0
    ensures a <= 0 ==> r <= 0
  {
    if a >= 0 then a % b else -(-a % b)
  }

  predicate ExistsTime(t: TimeOfDay) {
    0 <= t.hour < 24 && 0 <= t.minute < 60 && 0 <= t.second < 60 && 0 <= t.microsecond < 1000000
  }

  /** Microseconds from the start of the day. */
  function Microseconds(t: TimeOfDay): int {
    ((t.hour * 60 + t.minute) * 60 + t.second) * 1000000 + t.microsecond
  }

  function TimeOf(us: int): TimeOfDay {
    TimeOfDay(Quot(us, 3600000000), Rem(Quot(us, 60000000), 60), Rem(Quot(us, 1000000), 60), Rem(us, 1000000))
  }

  /** Microseconds between the Julian date origin and the reference point. */
  function ReferencePoint(ref: TimestampReference): int {
    if ref.MicroSecondsSinceUnixTimeOrigin? then TIME_DIFFERENCE_JULIAN_2_UNIX else 0
  }

  /** The default-constructed date 0-0-0, which counts as no date at all. */
  const UNSET := Date(0, 0, 0)

  /** The timestamp of a date and a time of day. */
  function TimestampOf(d: Date, t: TimeOfDay, ref: TimestampReference): int {
    (if d == UNSET then 0 else DayNumber(d) * USECS_PER_DAY) + Microseconds(t) - ReferencePoint(ref)
  }

  class DateTime {
    var year: int
    var month: int
    var day: int
    var hour: int
    var minute: int
    var second: int
    var microsecond: int

    ghost function AsDate(): Date
      reads this
    {
      Date(year, month, day)
    }

    ghost function AsTime(): TimeOfDay
      reads this
    {
      TimeOfDay(hour, minute, second, microsecond)
    }

    constructor (d: Date, t: TimeOfDay)
      ensures AsDate() == d && AsTime() == t
    {
      year, month, day := d.year, d.month, d.day;
      hour, minute, second, microsecond := t.hour, t.minute, t.second, t.microsecond;
    }

    method Set(newYear: int, newMonth: int, newDay: int, newHour: int, newMinute: int, newSecond: int, newMicrosecond: int)
      modifies this
      ensures AsDate() == Date(newYear, newMonth, newDay)
      ensures AsTime() == TimeOfDay(newHour, newMinute, newSecond, newMicrosecond)
    {
      year, month, day := newYear, newMonth, newDay;
      hour, minute, second, microsecond := newHour, newMinute, newSecond, newMicrosecond;
    }

    /** The closed form on fractions, as the source computes it, is TimestampOf. */
    method ToTimestamp(ref: TimestampReference) returns (r: int)
      ensures r == TimestampOf(AsDate(), AsTime(), ref)
      ensures AsDate() == Date(0, 0, 0) ==> r == Microseconds(AsTime()) - ReferencePoint(ref)
      ensures AsDate() != Date(0, 0, 0) ==>
        r == DayNumber(AsDate()) * USECS_PER_DAY + Microseconds(AsTime()) - ReferencePoint(ref)
    {
      hide YearStart, MonthStart;
      var timestamp := (hour * 3600 + minute * 60 + second) * 1000000 + microsecond;
      match ref {
        case MicroSecondsSinceUnixTimeOrigin => timestamp := timestamp - TIME_DIFFERENCE_JULIAN_2_UNIX;
        case MicroSecondsSinceJulianDateOrigin =>
      }
      var y, m, d := year, month, day;
      if y == 0 && m == 0 && d == 0 {
        return timestamp;
      }
      m := m - 3;
      if m < 0 {
        m := m + 12;
        y := y - 1;
      }
      YearFractions(y);
      MonthFractions(m);
      var dayCount := (y as real * 365.25).Floor + (m as real * 30.6 + 0.5).Floor + d + 1721117;
      if dayCount > 2299170 {
        dayCount := dayCount - ((y as real / 100.0).Floor - (y as real / 400.0).Floor - 2);
      }
      return dayCount * USECS_PER_DAY + timestamp;
    }

    /** The inverse closed form on fractions is DateOf and TimeOf. */
    method SetTimestamp(dateTime: int, ref: TimestampReference)
      modifies this
      ensures var julian := dateTime + ReferencePoint(ref);
              AsDate() == DateOf(Quot(julian, USECS_PER_DAY)) && AsTime() == TimeOf(Rem(julian, USECS_PER_DAY))
    {
      var julian := dateTime;
      match ref {
        case MicroSecondsSinceUnixTimeOrigin => julian := julian + TIME_DIFFERENCE_JULIAN_2_UNIX;
        case MicroSecondsSinceJulianDateOrigin =>
      }
      var y, m, d := DateFractions(Quot(julian, USECS_PER_DAY));
      var timestamp := Rem(julian, USECS_PER_DAY);
      var hours := Quot(timestamp, 3600000000);
      var minutes := Rem(Quot(timestamp, 60000000), 60);
      var seconds := Rem(Quot(timestamp, 1000000), 60);
      var microseconds := Rem(timestamp, 1000000);
      Set(y, m, d, hours, minutes, seconds, microseconds);
    }
  }

  /** The part of set that turns a day number into a date. */
  method DateFractions(dayNumber: int) returns (y: int, m: int, d: int)
    ensures Date(y, m, d) == DateOf(dayNumber)
  {
    hide YearStart, MonthStart;
    var days := dayNumber;
    if days >= 2299161 {
      var days2 := days - 1721119;
      DayFractions(days2);
      days := days + (days2 as real / 36524.25).Floor - (days2 as real / 146097.0).Floor - 2;
    }
    var tz := days - 1721117;
    TzFractions(tz);
    y := ((tz as real - 0.2) / 365.25).Floor;
    YearFractions(y);
    var r := tz - (y as real * 365.25).Floor;
    RestFractions(r);
    m := ((r as real - 0.5) / 30.6).Floor;
    MonthFractions(m);
    d := r - (m as real * 30.6 + 0.5).Floor;
    m := m + 3;
    if m > 12 {
      m := m - 12;
      y := y + 1;
    }
  }

  // ---------- the fractions in the source are exact quotients ----------

  lemma YearFractions(y: int)
    ensures (y as real * 365.25).Floor == YearStart(y)
    ensures (y as real / 100.0).Floor == y / 100 && (y as real / 400.0).Floor == y / 400
  {
  }

  lemma MonthFractions(m: int)
    ensures (m as real * 30.6 + 0.5).Floor == MonthStart(m)
  {
  }

  lemma DayFractions(n: int)
    ensures (n as real / 36524.25).Floor == 4 * n / 146097 && (n as real / 146097.0).Floor == n / 146097
  {
  }

  lemma TzFractions(tz: int)
    ensures ((tz as real - 0.2) / 365.25).Floor == (20 * tz - 4) / 7305
  {
  }

  lemma RestFractions(r: int)
    ensures ((r as real - 0.5) / 30.6).Floor == (10 * r - 5) / 306
  {
  }

  // ---------- timestamps ----------

  lemma SplitAt(x: int, unit: int, q: int, r: int)
    requires unit == 60 || unit == 1000000
    requires 0 <= r < unit && x == q * unit + r
    ensures x / unit == q && x % unit == r
  {
  }

  /** Quotients by nested units. */
  lemma NestedQuotients(us: int)
    requires us >= 0
    ensures us / 60000000 == us / 1000000 / 60
    ensures us / 3600000000 == us / 60000000 / 60
  {
  }

  lemma TimeOfNegative(us: int)
    requires us < 0
    ensures var t, m := TimeOf(us), TimeOf(-us);
            t == TimeOfDay(-m.hour, -m.minute, -m.second, -m.microsecond)
  {
  }

  lemma MicrosecondsOfPositive(us: int)
    requires 0 <= us < USECS_PER_DAY
    ensures Microseconds(TimeOf(us)) == us && ExistsTime(TimeOf(us))
  {
    NestedQuotients(us);
    var s := us / 1000000;
    assert us == 1000000 * s + us % 1000000;
    assert s == 60 * (s / 60) + s % 60;
    assert s / 60 == 60 * (s / 60 / 60) + s / 60 % 60;
  }

  /** Cutting a number of microseconds of either sign into a time of day loses nothing. */
  lemma MicrosecondsOfTime(us: int)
    requires -USECS_PER_DAY < us < USECS_PER_DAY
    ensures Microseconds(TimeOf(us)) == us
    ensures us >= 0 ==> ExistsTime(TimeOf(us))
  {
    if us >= 0 {
      MicrosecondsOfPositive(us);
    } else {
      MicrosecondsOfPositive(-us);
      TimeOfNegative(us);
    }
  }

  lemma TimeOfMicroseconds(t: TimeOfDay)
    requires ExistsTime(t)
    ensures 0 <= Microseconds(t) < USECS_PER_DAY && TimeOf(Microseconds(t)) == t
  {
    var us, minutes := Microseconds(t), t.hour * 60 + t.minute;
    NestedQuotients(us);
    SplitAt(us, 1000000, minutes * 60 + t.second, t.microsecond);
    SplitAt(minutes * 60 + t.second, 60, minutes, t.second);
    SplitAt(minutes, 60, t.hour, t.minute);
  }

  lemma SplitTimestamp(n: int, us: int, julian: int)
    requires 0 <= us < USECS_PER_DAY && julian == n * USECS_PER_DAY + us
    ensures n >= 0 || us == 0 ==> Quot(julian, USECS_PER_DAY) == n && Rem(julian, USECS_PER_DAY) == us
    ensures n < 0 && us > 0 ==> Quot(julian, USECS_PER_DAY) == n + 1
  {
  }

  /** set after toTimestamp gives the date and the time back. */
  predicate ComesBack(d: Date, t: TimeOfDay, ref: TimestampReference) {
    var julian := TimestampOf(d, t, ref) + ReferencePoint(ref);
    DateOf(Quot(julian, USECS_PER_DAY)) == d && TimeOf(Rem(julian, USECS_PER_DAY)) == t
  }

  /**
   set after toTimestamp gives an existing date and time back exactly when the day is not
   before the origin or the time is midnight: quotients are cut towards zero.
   */
  lemma DateTimeRoundTrip(d: Date, t: TimeOfDay, ref: TimestampReference)
    requires Exists(d) && ExistsTime(t)
    ensures ComesBack(d, t, ref) <==> DayNumber(d) >= 0 || Microseconds(t) == 0
  {
    hide DateOf, DayNumber, TimeOf, Microseconds;
    var n, us, julian := DayNumber(d), Microseconds(t), TimestampOf(d, t, ref) + ReferencePoint(ref);
    TimeOfMicroseconds(t);
    SplitTimestamp(n, us, julian);
    var q, r := Quot(julian, USECS_PER_DAY), Rem(julian, USECS_PER_DAY);
    DateOfDayNumber(d);
    if n < 0 && us > 0 {
      assert q == n + 1;
      DayNumberOfDate(q);
    } else {
      assert q == n && r == us;
    }
  }

  /** Noon of the day before the origin comes back as the origin, twelve hours short. */
  lemma NoonBeforeOrigin()
    ensures var d, t := Date(-4713, 12, 31), TimeOfDay(12, 0, 0, 0);
            var julian := TimestampOf(d, t, MicroSecondsSinceJulianDateOrigin);
            && Exists(d) && DayNumber(d) == -1 && !ComesBack(d, t, MicroSecondsSinceJulianDateOrigin)
            && DateOf(Quot(julian, USECS_PER_DAY)) == Date(-4712, 1, 1)
            && TimeOf(Rem(julian, USECS_PER_DAY)) == TimeOfDay(-12, 0, 0, 0)
  {
    var d, t := Date(-4713, 12, 31), TimeOfDay(12, 0, 0, 0);
    assert TimestampOf(d, t, MicroSecondsSinceJulianDateOrigin) == -43200000000;
  }

  /** toTimestamp after set gives the timestamp back, for every timestamp; the date always exists. */
  lemma TimestampRoundTrip(timestamp: int, ref: TimestampReference)
    ensures var julian := timestamp + ReferencePoint(ref);
            var d, t := DateOf(Quot(julian, USECS_PER_DAY)), TimeOf(Rem(julian, USECS_PER_DAY));
            Exists(d) && TimestampOf(d, t, ref) == timestamp && (julian >= 0 ==> ExistsTime(t))
  {
    hide DateOf, DayNumber, TimeOf, Microseconds;
    var julian := timestamp + ReferencePoint(ref);
    DayNumberOfDate(Quot(julian, USECS_PER_DAY));
    MicrosecondsOfTime(Rem(julian, USECS_PER_DAY));
  }

  /** An unset date counts as the origin: set after toTimestamp gives that date, and the same time. */
  lemma UnsetIsOrigin(t: TimeOfDay, ref: TimestampReference)
    requires ExistsTime(t)
    ensures TimestampOf(Date(0, 0, 0), t, ref) == TimestampOf(Counted(0), t, ref)
    ensures var julian := TimestampOf(Date(0, 0, 0), t, ref) + ReferencePoint(ref);
            DateOf(Quot(julian, USECS_PER_DAY)) == Counted(0) && TimeOf(Rem(julian, USECS_PER_DAY)) == t
  {
    hide DateOf, DayNumber, TimeOf, Microseconds;
    CountingAgrees(0);
    TimeOfMicroseconds(t);
    SplitTimestamp(0, Microseconds(t), Microseconds(t));
  }

  /** The next microsecond, on the clock and in the calendar. */
  function NextInstant(d: Date, t: TimeOfDay): (Date, TimeOfDay) {
    if t.microsecond < 999999 then (d, t.(microsecond := t.microsecond + 1))
    else if t.second < 59 then (d, TimeOfDay(t.hour, t.minute, t.second + 1, 0))
    else if t.minute < 59 then (d, TimeOfDay(t.hour, t.minute + 1, 0, 0))
    else if t.hour < 23 then (d, TimeOfDay(t.hour + 1, 0, 0, 0))
    else (NextDay(d), TimeOfDay(0, 0, 0, 0))
  }

  /** Timestamps count microseconds: the next instant's is one higher, across midnight and month ends too. */
  lemma Tick(d: Date, t: TimeOfDay, ref: TimestampReference)
    requires Exists(d) && ExistsTime(t)
    ensures var (nextDate, nextTime) := NextInstant(d, t);
            && Exists(nextDate) && ExistsTime(nextTime)
            && TimestampOf(nextDate, nextTime, ref) == TimestampOf(d, t, ref) + 1
  {
    hide DayNumber, NextDay;
    Step(d);
  }

  /** The Julian reference point is midnight of 1 January 4713 BC. */
  lemma JulianOrigin()
    ensures TimestampOf(Date(-4712, 1, 1), TimeOfDay(0, 0, 0, 0), MicroSecondsSinceJulianDateOrigin) == 0
  {
  }

  /** The Unix reference point is midnight of 1 January 1970. */
  lemma UnixOrigin()
    ensures TimestampOf(Date(1970, 1, 1), TimeOfDay(0, 0, 0, 0), MicroSecondsSinceUnixTimeOrigin) == 0
  {
  }
}
