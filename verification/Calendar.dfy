/**
 The calendar behind DateTime: Julian dates up to 4 October 1582, Gregorian dates from
 15 October 1582, counted day by day, and the closed forms that number the days.
 */
module Calendar {
  datatype Date = Date(year: int, month: int, day: int)

  // ---------- the calendar, day by day ----------

  predicate IsLeap(year: int) {
    year % 4 == 0 && (year <= 1582 || year % 100 != 0 || year % 400 == 0)
  }

  function MonthLength(year: int, month: int): (n: int)
    ensures 28 <= n <= 31
  {
    if month == 2 then (if IsLeap(year) then 29 else 28)
    else if month == 4 || month == 6 || month == 9 || month == 11 then 30
    else 31
  }

  /** The dates that exist: 5 to 14 October 1582 do not. */
  predicate Exists(d: Date) {
    && 1 <= d.month <= 12
    && 1 <= d.day <= MonthLength(d.year, d.month)
    && !(d.year == 1582 && d.month == 10 && 5 <= d.day <= 14)
  }

  function NextDay(d: Date): Date {
    if d == Date(1582, 10, 4) then Date(1582, 10, 15)
    else if d.day < MonthLength(d.year, d.month) then d.(day := d.day + 1)
    else if d.month < 12 then Date(d.year, d.month + 1, 1)
    else Date(d.year + 1, 1, 1)
  }

  /** The n-th day after the origin, 1 January 4713 BC, by counting. */
  function Counted(n: nat): Date {
    if n == 0 then Date(-4712, 1, 1) else NextDay(Counted(n - 1))
  }

  predicate InGregorian(d: Date) {
    d.year > 1582 || (d.year == 1582 && (d.month > 10 || (d.month == 10 && d.day >= 15)))
  }

  // ---------- the closed forms ----------

  /** Days before the year that starts in March of `y`, in Julian years. */
  function YearStart(y: int): int { 1461 * y / 4 }

  /** Days before month m of a year that starts in March. */
  function MonthStart(m: int): int { (306 * m + 5) / 10 }

  function JulianNumber(y: int, m: int, day: int): int {
    YearStart(y) + MonthStart(m) + day + 1721117
  }

  function MarchYear(d: Date): int { if d.month < 3 then d.year - 1 else d.year }

  function MarchMonth(d: Date): int { if d.month < 3 then d.month + 9 else d.month - 3 }

  function CenturyShift(y: int): int { y / 100 - y / 400 - 2 }

  function DayNumber(d: Date): int {
    var count := JulianNumber(MarchYear(d), MarchMonth(d), d.day);
    if count > 2299170 then count - CenturyShift(MarchYear(d)) else count
  }

  /** Julian date of a day number, as if the Julian calendar had never ended. */
  function JulianDate(n: int): Date {
    var tz := n - 1721117;
    var y := (20 * tz - 4) / 7305;
    var r := tz - YearStart(y);
    var m := (10 * r - 5) / 306;
    var day := r - MonthStart(m);
    if m + 3 > 12 then Date(y + 1, m - 9, day) else Date(y, m + 3, day)
  }

  /** Days the Gregorian calendar has dropped by day n: quotients of a century and of four. */
  function DroppedDays(n: int): int {
    4 * (n - 1721119) / 146097 - (n - 1721119) / 146097 - 2
  }

  function DateOf(n: int): Date {
    JulianDate(if n >= 2299161 then n + DroppedDays(n) else n)
  }

  // ---------- years and months ----------

  lemma YearLength(y: int)
    ensures YearStart(y + 1) - YearStart(y) == if (y + 1) % 4 == 0 then 366 else 365
  {
  }

  lemma YearOf(y: int, doy: int)
    requires 1 <= doy <= YearStart(y + 1) - YearStart(y)
    ensures (20 * (YearStart(y) + doy) - 4) / 7305 == y
  {
  }

  lemma YearBounds(tz: int)
    ensures var y := (20 * tz - 4) / 7305; YearStart(y) < tz <= YearStart(y + 1)
  {
  }

  lemma MonthOf(m: int, day: int)
    requires 0 <= m <= 11 && 1 <= day <= MonthStart(m + 1) - MonthStart(m)
    ensures (10 * (MonthStart(m) + day) - 5) / 306 == m
  {
  }

  lemma MonthBounds(r: int)
    requires 1 <= r <= 366
    ensures var m := (10 * r - 5) / 306; 0 <= m <= 11 && MonthStart(m) < r <= MonthStart(m + 1)
  {
  }

  lemma MonthLengths(m: int)
    requires 0 <= m <= 10
    ensures MonthStart(m + 1) - MonthStart(m)
         == if m == 1 || m == 3 || m == 6 || m == 8 then 30 else 31
  {
  }

  /** A date's place in its March-based year. */
  lemma DayOfYear(d: Date)
    requires Exists(d)
    ensures var m := MarchMonth(d);
            && 0 <= m <= 11 && 1 <= d.day <= MonthStart(m + 1) - MonthStart(m)
            && 1 <= MonthStart(m) + d.day <= YearStart(MarchYear(d) + 1) - YearStart(MarchYear(d))
  {
    YearLength(MarchYear(d));
    if MarchMonth(d) < 11 {
      MonthLengths(MarchMonth(d));
    }
  }

  /** The threshold in toTimestamp separates the calendars. */
  lemma Threshold(d: Date)
    requires Exists(d)
    ensures JulianNumber(MarchYear(d), MarchMonth(d), d.day) > 2299170 <==> InGregorian(d)
  {
    DayOfYear(d);
  }

  // ---------- consecutive days ----------

  lemma NumberOf(d: Date)
    requires Exists(d)
    ensures DayNumber(d) == JulianNumber(MarchYear(d), MarchMonth(d), d.day)
                            - (if InGregorian(d) then CenturyShift(MarchYear(d)) else 0)
  {
    Threshold(d);
  }

  lemma NextExists(d: Date)
    requires Exists(d)
    ensures Exists(NextDay(d))
    ensures InGregorian(NextDay(d)) <==> InGregorian(d) || d == Date(1582, 10, 4)
  {
  }

  /** The Julian number of the next day, when both days belong to one calendar. */
  lemma StepJulian(d: Date)
    requires Exists(d) && d != Date(1582, 10, 4)
    ensures var next := NextDay(d);
            JulianNumber(MarchYear(next), MarchMonth(next), next.day)
              - JulianNumber(MarchYear(d), MarchMonth(d), d.day)
              == if d.month == 2 && next.month == 3 && !IsLeap(d.year) && d.year % 4 == 0 then 2 else 1
  {
    if d.day >= MonthLength(d.year, d.month) {
      if d.month == 2 {
        YearLength(d.year - 1);
      } else {
        MonthLengths(MarchMonth(d));
      }
    }
  }

  lemma StepShift(d: Date)
    requires Exists(d) && InGregorian(d)
    ensures var next := NextDay(d);
            CenturyShift(MarchYear(next)) - CenturyShift(MarchYear(d))
              == if d.month == 2 && next.month == 3 && !IsLeap(d.year) && d.year % 4 == 0 then 1 else 0
  {
    if d.month == 2 && NextDay(d).month == 3 {
      LeapShift(d.year);
      LeapAfterSwitch(d.year);
    } else {
      assert MarchYear(NextDay(d)) == MarchYear(d);
    }
  }

  lemma LeapAfterSwitch(y: int)
    requires y > 1582
    ensures y % 100 == 0 && y % 400 != 0 <==> !IsLeap(y) && y % 4 == 0
  {
  }

  /** NextDay stays in the calendar and is numbered one higher. */
  lemma Step(d: Date)
    requires Exists(d)
    ensures Exists(NextDay(d)) && DayNumber(NextDay(d)) == DayNumber(d) + 1
  {
    NextExists(d);
    NumberOf(d);
    NumberOf(NextDay(d));
    if d == Date(1582, 10, 4) {
      assert DayNumber(d) == 2299160 && DayNumber(NextDay(d)) == 2299161;
    } else {
      StepJulian(d);
      if InGregorian(d) {
        StepShift(d);
      }
    }
  }

  lemma LeapShift(y: int)
    ensures CenturyShift(y) - CenturyShift(y - 1) == if y % 100 == 0 && y % 400 != 0 then 1 else 0
  {
    assert y / 100 - (y - 1) / 100 == if y % 100 == 0 then 1 else 0;
    assert y / 400 - (y - 1) / 400 == if y % 400 == 0 then 1 else 0;
    assert y % 400 == 0 ==> y % 100 == 0;
  }

  // ---------- from the day number back ----------

  /** A year that starts in March ends with the February of the next calendar year. */
  predicate IsLeapMarchYear(y: int) {
    (y + 1) % 4 == 0 && ((y + 1) % 100 != 0 || (y + 1) % 400 == 0)
  }

  /** With w days into a 400-year cycle, in its year e: the quotients err together on the last day. */
  lemma CycleDay(e: int, doy: int)
    requires 0 <= e < 400
    requires 1 <= doy <= if IsLeapMarchYear(e) then 366 else 365
    ensures var w := 365 * e + e / 4 - e / 100 + doy;
            4 * w / 146097 - w / 146097 == e / 100
  {
    var c, f := e / 100, e % 100;
    assert e / 4 == 25 * c + f / 4;
    var w := 365 * e + e / 4 - c + doy;
    var rest := 365 * f + f / 4 + doy;
    assert w == 36524 * c + rest && 0 <= c <= 3;
    assert 1 <= rest <= if c == 3 then 36525 else 36524;
    InCentury(c, rest);
  }

  /** The last day of the cycle, c == 3 and rest == 36525, is where both quotients are one higher. */
  lemma InCentury(c: int, rest: int)
    requires 0 <= c <= 3 && 1 <= rest <= if c == 3 then 36525 else 36524
    ensures var w := 36524 * c + rest; 4 * w / 146097 - w / 146097 == c
  {
  }

  lemma InCycle(y: int, q: int, e: int)
    requires q == y / 400 && e == y % 400
    ensures y / 4 == 100 * q + e / 4 && y / 100 == 4 * q + e / 100
    ensures IsLeapMarchYear(y) == IsLeapMarchYear(e)
  {
    assert y == 400 * q + e;
    Quarters(q, e);
    Centuries(q, e);
    LeapInCycle(q, e);
  }

  lemma Quarters(q: int, e: int)
    ensures (400 * q + e) / 4 == 100 * q + e / 4
  {
  }

  lemma Centuries(q: int, e: int)
    ensures (400 * q + e) / 100 == 4 * q + e / 100
  {
  }

  lemma LeapInCycle(q: int, e: int)
    ensures IsLeapMarchYear(400 * q + e) == IsLeapMarchYear(e)
  {
    Four(q, e + 1);
    FourHundred(q, e + 1);
    Hundred(q, e + 1);
  }

  lemma Four(q: int, x: int)
    ensures (400 * q + x) % 4 == x % 4
  {
    assert 400 * q + x == 4 * (100 * q + x / 4) + x % 4;
  }

  lemma FourHundred(q: int, x: int)
    ensures (400 * q + x) % 400 == x % 400
  {
    assert 400 * q + x == 400 * (q + x / 400) + x % 400;
  }

  lemma Hundred(q: int, x: int)
    ensures (400 * q + x) % 100 == x % 100
  {
    assert 400 * q + x == 100 * (4 * q + x / 100) + x % 100;
  }

  lemma WholeCycles(q: int, w: int)
    ensures 4 * (146097 * q + w) / 146097 == 4 * q + 4 * w / 146097
    ensures (146097 * q + w) / 146097 == q + w / 146097
  {
  }

  lemma GregorianShift(y: int, doy: int, n: int)
    requires 1 <= doy <= if IsLeapMarchYear(y) then 366 else 365
    requires n == YearStart(y) + doy + 1721117 - CenturyShift(y)
    ensures DroppedDays(n) == CenturyShift(y)
  {
    var q, e := y / 400, y % 400;
    InCycle(y, q, e);
    CycleDay(e, doy);
    var w := 365 * e + e / 4 - e / 100 + doy;
    assert YearStart(y) == 365 * y + y / 4;
    assert n - 1721119 == 146097 * q + w;
    WholeCycles(q, w);
  }

  lemma JulianDateOf(d: Date)
    requires Exists(d)
    ensures JulianDate(JulianNumber(MarchYear(d), MarchMonth(d), d.day)) == d
  {
    DayOfYear(d);
    YearOf(MarchYear(d), MonthStart(MarchMonth(d)) + d.day);
    MonthOf(MarchMonth(d), d.day);
  }

  lemma GregorianDayOfYear(d: Date)
    requires Exists(d) && InGregorian(d)
    ensures 1 <= MonthStart(MarchMonth(d)) + d.day <= if IsLeapMarchYear(MarchYear(d)) then 366 else 365
  {
    DayOfYear(d);
    YearLength(MarchYear(d));
  }

  lemma GregorianFrom(d: Date)
    requires Exists(d)
    ensures InGregorian(d) <==> DayNumber(d) >= 2299161
  {
    NumberOf(d);
    DayOfYear(d);
    if InGregorian(d) {
      GregorianDayOfYear(d);
    }
  }

  /** The date survives the trip through its number. */
  lemma DateOfDayNumber(d: Date)
    requires Exists(d)
    ensures DateOf(DayNumber(d)) == d
  {
    NumberOf(d);
    JulianDateOf(d);
    GregorianFrom(d);
    if InGregorian(d) {
      GregorianDayOfYear(d);
      GregorianShift(MarchYear(d), MonthStart(MarchMonth(d)) + d.day, DayNumber(d));
    }
  }

  lemma Origin()
    ensures Exists(Date(-4712, 1, 1)) && DayNumber(Date(-4712, 1, 1)) == 0
  {
  }

  /** Every counted day exists and is numbered by the count. */
  lemma {:induction false} CountedNumber(n: nat)
    ensures Exists(Counted(n)) && DayNumber(Counted(n)) == n
  {
    if n > 0 {
      CountedNumber(n - 1);
      Step(Counted(n - 1));
    } else {
      Origin();
    }
  }

  /** Counting and the closed forms agree, both ways, on every day from the origin on. */
  lemma CountingAgrees(n: nat)
    ensures DayNumber(Counted(n)) == n && DateOf(n) == Counted(n)
  {
    CountedNumber(n);
    DateOfDayNumber(Counted(n));
  }

  /** A place in the Julian calendar before the switch is a date with that number. */
  lemma JulianPlace(y: int, m: int, day: int)
    requires 0 <= m <= 11 && 1 <= day <= MonthStart(m + 1) - MonthStart(m)
    requires MonthStart(m) + day <= YearStart(y + 1) - YearStart(y)
    requires JulianNumber(y, m, day) < 2299161
    ensures var d := if m + 3 > 12 then Date(y + 1, m - 9, day) else Date(y, m + 3, day);
            Exists(d) && DayNumber(d) == JulianNumber(y, m, day)
  {
    YearLength(y);
    if m < 11 {
      MonthLengths(m);
    }
    assert y <= 1582;
  }

  lemma JulianFields(n: int) returns (y: int, m: int, day: int)
    ensures JulianDate(n) == if m + 3 > 12 then Date(y + 1, m - 9, day) else Date(y, m + 3, day)
    ensures 0 <= m <= 11 && 1 <= day <= MonthStart(m + 1) - MonthStart(m)
    ensures MonthStart(m) + day <= YearStart(y + 1) - YearStart(y)
    ensures JulianNumber(y, m, day) == n
  {
    var tz := n - 1721117;
    y := (20 * tz - 4) / 7305;
    YearBounds(tz);
    YearLength(y);
    var r := tz - YearStart(y);
    MonthBounds(r);
    m := (10 * r - 5) / 306;
    day := r - MonthStart(m);
  }

  /** Before the switch the Julian closed form is a date with that number, for any integer. */
  lemma JulianInverse(n: int)
    requires n < 2299161
    ensures Exists(DateOf(n)) && DayNumber(DateOf(n)) == n
  {
    var y, m, day := JulianFields(n);
    JulianPlace(y, m, day);
  }

  /** DateOf never leaves the calendar and inverts DayNumber, on every integer. */
  lemma DayNumberOfDate(n: int)
    ensures Exists(DateOf(n)) && DayNumber(DateOf(n)) == n
  {
    if n < 2299161 {
      JulianInverse(n);
    } else {
      CountedNumber(n);
      CountingAgrees(n);
    }
  }

  /** The trip through the day number gives a date back exactly when that date exists. */
  lemma RoundTripIffExists(d: Date)
    ensures DateOf(DayNumber(d)) == d <==> Exists(d)
  {
    if Exists(d) {
      DateOfDayNumber(d);
    } else {
      DayNumberOfDate(DayNumber(d));
    }
  }

  /** Every existing date from the origin on is reached by counting. */
  lemma EveryDateIsCounted(d: Date)
    requires Exists(d) && DayNumber(d) >= 0
    ensures Counted(DayNumber(d)) == d
  {
    DateOfDayNumber(d);
    CountingAgrees(DayNumber(d));
  }
}
