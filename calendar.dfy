/**
 * The Gregorian calendar arithmetic that the monthly trigger takes from .NET's
 * DateTime / DateTimeOffset: month lengths, the constructor's representability
 * check, day numbers, the day of the week, AddDays and AddMonths.
 * Years are unbounded (proleptic Gregorian calendar).
 */
module Calendar {

  /** System.DayOfWeek; DayIndex is the enum's numeric value (Sunday = 0). */
  datatype DayOfWeek = Sunday | Monday | Tuesday | Wednesday | Thursday | Friday | Saturday

  function DayIndex(w: DayOfWeek): (i: nat)
    ensures i < 7
  {
    match w
    case Sunday => 0
    case Monday => 1
    case Tuesday => 2
    case Wednesday => 3
    case Thursday => 4
    case Friday => 5
    case Saturday => 6
  }

  function DayOfWeekFromIndex(i: nat): (w: DayOfWeek)
    requires i < 7
    ensures DayIndex(w) == i
  {
    if i == 0 then Sunday
    else if i == 1 then Monday
    else if i == 2 then Tuesday
    else if i == 3 then Wednesday
    else if i == 4 then Thursday
    else if i == 5 then Friday
    else Saturday
  }

  /** A calendar date; only dates satisfying ValidDate stand for a DateTimeOffset. */
  datatype Date = Date(year: int, month: int, day: int)

  predicate IsLeapYear(y: int) {
    y % 4 == 0 && (y % 100 != 0 || y % 400 == 0)
  }

  function DaysInMonth(y: int, m: int): (n: int)
    requires 1 <= m <= 12
    ensures 28 <= n <= 31
    ensures m == 2 ==> n == (if IsLeapYear(y) then 29 else 28)
    ensures m != 2 ==> n >= 30
  {
    if m == 2 then (if IsLeapYear(y) then 29 else 28)
    else if m == 4 || m == 6 || m == 9 || m == 11 then 30
    else 31
  }

  /** Whether `new DateTimeOffset(y, m, d, ...)` succeeds rather than throwing. */
  predicate Representable(y: int, m: int, d: int) {
    1 <= m <= 12 && 1 <= d <= DaysInMonth(y, m)
  }

  predicate ValidDate(d: Date) {
    Representable(d.year, d.month, d.day)
  }

  /** Months counted from January of year 0; consecutive months differ by one. */
  function MonthIndex(d: Date): int {
    12 * d.year + d.month - 1
  }

  /** Lexicographic (chronological) order on dates. */
  predicate DateBefore(a: Date, b: Date) {
    a.year < b.year || (a.year == b.year && (a.month < b.month || (a.month == b.month && a.day < b.day)))
  }

  function FirstOfMonth(d: Date): Date {
    Date(d.year, d.month, 1)
  }

  function FirstOfNextMonth(d: Date): (r: Date)
    requires 1 <= d.month <= 12
    ensures ValidDate(r) && r.day == 1
    ensures MonthIndex(r) == MonthIndex(d) + 1
  {
    if d.month == 12 then Date(d.year + 1, 1, 1) else Date(d.year, d.month + 1, 1)
  }

  function LastOfPreviousMonth(d: Date): (r: Date)
    requires 1 <= d.month <= 12
    ensures ValidDate(r) && r.day == DaysInMonth(r.year, r.month)
    ensures MonthIndex(r) == MonthIndex(d) - 1
  {
    if d.month == 1 then Date(d.year - 1, 12, 31)
    else Date(d.year, d.month - 1, DaysInMonth(d.year, d.month - 1))
  }

  /** Days from 1 January of year 1 to 1 January of year y. */
  function DaysBeforeYear(y: int): int {
    var p := y - 1;
    365 * p + p / 4 - p / 100 + p / 400
  }

  function DaysBeforeMonth(y: int, m: int): int
    requires 1 <= m <= 12
  {
    var before :=
      if m == 1 then 0 else if m == 2 then 31 else if m == 3 then 59 else if m == 4 then 90
      else if m == 5 then 120 else if m == 6 then 151 else if m == 7 then 181 else if m == 8 then 212
      else if m == 9 then 243 else if m == 10 then 273 else if m == 11 then 304 else 334;
    before + (if IsLeapYear(y) && m > 2 then 1 else 0)
  }

  /** Days from 0001-01-01 to d: DateTime.Ticks / TimeSpan.TicksPerDay. */
  function DayNumber(d: Date): int
    requires ValidDate(d)
  {
    DaysBeforeYear(d.year) + DaysBeforeMonth(d.year, d.month) + d.day - 1
  }

  /** DateTime.DayOfWeek: 0001-01-01 was a Monday. */
  function DayOfWeekOf(d: Date): DayOfWeek
    requires ValidDate(d)
  {
    DayOfWeekFromIndex((DayNumber(d) + 1) % 7)
  }

  /** Integer division by a positive constant steps up exactly at multiples. */
  lemma DivStep(a: int, k: int)
    requires k == 4 || k == 100 || k == 400
    ensures (a + 1) / k == a / k + (if (a + 1) % k == 0 then 1 else 0)
  {
    if k == 4 {
      assert a == 4 * (a / 4) + a % 4;
      assert a + 1 == 4 * ((a + 1) / 4) + (a + 1) % 4;
    } else if k == 100 {
      assert a == 100 * (a / 100) + a % 100;
      assert a + 1 == 100 * ((a + 1) / 100) + (a + 1) % 100;
    } else {
      assert a == 400 * (a / 400) + a % 400;
      assert a + 1 == 400 * ((a + 1) / 400) + (a + 1) % 400;
    }
  }

  /** Adding b days shifts the weekday index by b, modulo 7. */
  lemma ModSeven(a: int, b: int)
    ensures (a + b) % 7 == (a % 7 + b) % 7
  {
    var u, v := a + b, a % 7 + b;
    assert a == 7 * (a / 7) + a % 7;
    assert u == 7 * (u / 7) + u % 7;
    assert v == 7 * (v / 7) + v % 7;
    assert 7 * (a / 7 + v / 7 - u / 7) == u % 7 - v % 7;
  }

  lemma DaysBeforeYearStep(y: int)
    ensures DaysBeforeYear(y + 1) == DaysBeforeYear(y) + (if IsLeapYear(y) then 366 else 365)
  {
    var p := y - 1;
    assert p + 1 == y;
    DivStep(p, 4);
    DivStep(p, 100);
    DivStep(p, 400);
    CenturyDivisibility(y);
  }

  /** Multiples of 400 are multiples of 100, and those are multiples of 4. */
  lemma CenturyDivisibility(y: int)
    ensures y % 400 == 0 ==> y % 100 == 0
    ensures y % 100 == 0 ==> y % 4 == 0
  {
    if y % 400 == 0 {
      var q, d, r := y / 400, y / 100, y % 100;
      assert y == 400 * q;
      assert y == 100 * d + r && 0 <= r < 100;
      assert r == 100 * (4 * q - d);
    }
    if y % 100 == 0 {
      var q, d, r := y / 100, y / 4, y % 4;
      assert y == 100 * q;
      assert y == 4 * d + r && 0 <= r < 4;
      assert r == 4 * (25 * q - d);
    }
  }

  lemma {:induction false} DaysBeforeYearMonotone(y: int, z: int)
    requires y <= z
    ensures DaysBeforeYear(y) + 365 * (z - y) <= DaysBeforeYear(z)
    decreases z - y
  {
    if y < z {
      DaysBeforeYearMonotone(y, z - 1);
      DaysBeforeYearStep(z - 1);
    }
  }

  /** Months before m, plus m itself, fit in the days before a later month m'. */
  lemma DaysBeforeMonthMonotone(y: int, m: int, m': int)
    requires 1 <= m < m' <= 12
    ensures DaysBeforeMonth(y, m) + DaysInMonth(y, m) <= DaysBeforeMonth(y, m')
  {
  }

  lemma DaysInYear(y: int, m: int)
    requires 1 <= m <= 12
    ensures DaysBeforeMonth(y, m) + DaysInMonth(y, m) <= (if IsLeapYear(y) then 366 else 365)
  {
  }

  /** A date in an earlier year has a smaller day number. */
  lemma DayNumberEarlierYear(a: Date, b: Date)
    requires ValidDate(a) && ValidDate(b) && a.year < b.year
    ensures DayNumber(a) < DayNumber(b)
  {
    DaysInYear(a.year, a.month);
    DaysBeforeYearStep(a.year);
    DaysBeforeYearMonotone(a.year + 1, b.year);
  }

  /** A date in an earlier month of the same year has a smaller day number. */
  lemma DayNumberEarlierMonth(a: Date, b: Date)
    requires ValidDate(a) && ValidDate(b) && a.year == b.year && a.month < b.month
    ensures DayNumber(a) < DayNumber(b)
  {
    DaysBeforeMonthMonotone(a.year, a.month, b.month);
  }

  /** Chronological order is day-number order. */
  lemma DayNumberOrder(a: Date, b: Date)
    requires ValidDate(a) && ValidDate(b)
    ensures DateBefore(a, b) <==> DayNumber(a) < DayNumber(b)
    ensures a == b <==> DayNumber(a) == DayNumber(b)
  {
    if a.year < b.year {
      DayNumberEarlierYear(a, b);
    } else if b.year < a.year {
      DayNumberEarlierYear(b, a);
    } else if a.month < b.month {
      DayNumberEarlierMonth(a, b);
    } else if b.month < a.month {
      DayNumberEarlierMonth(b, a);
    }
  }

  /** The first of the next month lies DaysInMonth days after the first of this one. */
  lemma DayNumberNextMonth(d: Date)
    requires ValidDate(d)
    ensures DayNumber(FirstOfNextMonth(d)) == DayNumber(FirstOfMonth(d)) + DaysInMonth(d.year, d.month)
  {
    if d.month == 12 {
      DaysBeforeYearStep(d.year);
    }
  }

  /** The last of the previous month is the day before the first of this one. */
  lemma DayNumberPreviousMonth(d: Date)
    requires ValidDate(d)
    ensures DayNumber(LastOfPreviousMonth(d)) == DayNumber(FirstOfMonth(d)) - 1
  {
    if d.month == 1 {
      DaysBeforeYearStep(d.year - 1);
    }
  }

  /**
   * DateTimeOffset.AddDays for a whole number of days, walking month by month.
   * Its contract ties it to day numbers: the result is the date k days later.
   */
  function AddDays(d: Date, k: int): (r: Date)
    requires ValidDate(d)
    ensures ValidDate(r)
    ensures DayNumber(r) == DayNumber(d) + k
  {
    if k >= 0 then DaysForward(d, k) else DaysBack(d, -k)
  }

  /** k days later, moving to the first of the next month while k overruns this one. */
  function DaysForward(d: Date, k: nat): (r: Date)
    requires ValidDate(d)
    ensures ValidDate(r)
    ensures DayNumber(r) == DayNumber(d) + k
    decreases k
  {
    var last := DaysInMonth(d.year, d.month);
    if d.day + k <= last then Date(d.year, d.month, d.day + k)
    else
      DayNumberNextMonth(d);
      DaysForward(FirstOfNextMonth(d), k - (last - d.day + 1))
  }

  /** k days earlier, moving to the last of the previous month while k overruns this one. */
  function DaysBack(d: Date, k: nat): (r: Date)
    requires ValidDate(d)
    ensures ValidDate(r)
    ensures DayNumber(r) == DayNumber(d) - k
    decreases k
  {
    if d.day - k >= 1 then Date(d.year, d.month, d.day - k)
    else
      DayNumberPreviousMonth(d);
      DaysBack(LastOfPreviousMonth(d), k - d.day)
  }

  /** AddDays stays in the month exactly when the day count stays within it. */
  lemma AddDaysSameMonth(d: Date, k: int)
    requires ValidDate(d)
    ensures var r := AddDays(d, k);
            (r.year == d.year && r.month == d.month) <==> 1 <= d.day + k <= DaysInMonth(d.year, d.month)
    ensures 1 <= d.day + k <= DaysInMonth(d.year, d.month) ==> AddDays(d, k) == Date(d.year, d.month, d.day + k)
  {
  }

  /** AddDays(d, k) is the one valid date whose day number is k more than d's. */
  lemma AddDaysByDayNumber(d: Date, k: int, e: Date)
    requires ValidDate(d) && ValidDate(e) && DayNumber(e) == DayNumber(d) + k
    ensures AddDays(d, k) == e
  {
    DayNumberOrder(AddDays(d, k), e);
  }

  /** A step that leaves the month by less than 28 days lands in the next month. */
  lemma AddDaysIntoNextMonth(d: Date, k: int)
    requires ValidDate(d) && DaysInMonth(d.year, d.month) < d.day + k <= DaysInMonth(d.year, d.month) + 28
    ensures var next := FirstOfNextMonth(d);
            AddDays(d, k) == Date(next.year, next.month, d.day + k - DaysInMonth(d.year, d.month))
  {
    AddDaysSameMonth(FirstOfNextMonth(d), d.day + k - DaysInMonth(d.year, d.month) - 1);
  }

  /** Up to 30 days on from a 1st: the same month, or the start of the next one. */
  lemma AddDaysFromFirst(f: Date, k: int)
    requires ValidDate(f) && f.day == 1 && 0 <= k <= 30
    ensures var len := DaysInMonth(f.year, f.month);
            var next := FirstOfNextMonth(f);
            AddDays(f, k) == if k < len then Date(f.year, f.month, k + 1) else Date(next.year, next.month, k + 1 - len)
  {
    if k < DaysInMonth(f.year, f.month) {
      AddDaysSameMonth(f, k);
    } else {
      AddDaysIntoNextMonth(f, k);
    }
  }

  /** Moving forward never goes to an earlier month. */
  lemma {:induction false} AddDaysForward(d: Date, k: int)
    requires ValidDate(d) && k >= 0
    ensures MonthIndex(AddDays(d, k)) >= MonthIndex(d)
    ensures MonthIndex(AddDays(d, k)) == MonthIndex(d) ==> AddDays(d, k).day == d.day + k
    decreases k
  {
    var last := DaysInMonth(d.year, d.month);
    if d.day + k > last {
      AddDaysForward(FirstOfNextMonth(d), k - (last - d.day + 1));
      assert AddDays(d, k) == AddDays(FirstOfNextMonth(d), k - (last - d.day + 1));
    }
  }

  lemma WeekdayAfter(d: Date, k: int)
    requires ValidDate(d)
    ensures DayIndex(DayOfWeekOf(AddDays(d, k))) == (DayIndex(DayOfWeekOf(d)) + k) % 7
  {
    var n := DayNumber(d);
    assert DayNumber(AddDays(d, k)) == n + k;
    ModSeven(n + 1, k);
  }

  /** Weekdays inside one month advance by one per day. */
  lemma WeekdayInMonth(y: int, m: int, e: int)
    requires Representable(y, m, e)
    ensures DayIndex(DayOfWeekOf(Date(y, m, e))) == (DayIndex(DayOfWeekOf(Date(y, m, 1))) + e - 1) % 7
  {
    var n := DayNumber(Date(y, m, 1));
    assert DayNumber(Date(y, m, e)) == n + e - 1;
    ModSeven(n + 1, e - 1);
  }

  /** The first weekday of the next month follows from this month's length. */
  lemma WeekdayOfNextMonth(d: Date)
    requires ValidDate(d)
    ensures DayIndex(DayOfWeekOf(FirstOfNextMonth(d)))
         == (DayIndex(DayOfWeekOf(FirstOfMonth(d))) + DaysInMonth(d.year, d.month)) % 7
  {
    DayNumberNextMonth(d);
    var n := DayNumber(FirstOfMonth(d));
    ModSeven(n + 1, DaysInMonth(d.year, d.month));
  }

  /**
   * DateTimeOffset.AddMonths: move k months, keep the day unless the target
   * month is shorter, in which case clamp it to that month's last day.
   */
  function AddMonths(d: Date, k: int): (r: Date)
    requires ValidDate(d)
    ensures ValidDate(r)
    ensures MonthIndex(r) == MonthIndex(d) + k
    ensures r.day == if d.day <= DaysInMonth(r.year, r.month) then d.day else DaysInMonth(r.year, r.month)
  {
    var i := d.month - 1 + k;
    var y := d.year + i / 12;
    var m := i % 12 + 1;
    var last := DaysInMonth(y, m);
    Date(y, m, if d.day > last then last else d.day)
  }

  /** A date in a later month is not before a date in an earlier one. */
  lemma MonthIndexOrder(a: Date, b: Date)
    requires 1 <= a.month <= 12 && 1 <= b.month <= 12
    requires MonthIndex(a) < MonthIndex(b)
    ensures DateBefore(a, b)
  {
  }

  /** Month index determines year and month. */
  lemma MonthIndexInjective(a: Date, b: Date)
    requires 1 <= a.month <= 12 && 1 <= b.month <= 12
    requires MonthIndex(a) == MonthIndex(b)
    ensures a.year == b.year && a.month == b.month
  {
  }

  /** One month on from the first of a month is the first of the next month. */
  lemma NextMonthOfFirst(d: Date)
    requires ValidDate(d)
    ensures AddMonths(FirstOfMonth(d), 1) == FirstOfNextMonth(d)
  {
    MonthIndexInjective(AddMonths(FirstOfMonth(d), 1), FirstOfNextMonth(d));
  }

  /**
   * The source's idiom for the last day of a month: the first of the month,
   * one month on, one day back.
   */
  function LastDateOfMonth(y: int, m: int): (r: Date)
    requires 1 <= m <= 12
    ensures r == Date(y, m, DaysInMonth(y, m))
  {
    var next := AddMonths(Date(y, m, 1), 1);
    NextMonthOfFirst(Date(y, m, 1));
    AddDays(next, -1)
  }

  /** TimeSpan.TicksPerDay: 100-nanosecond ticks in one day. */
  const TicksPerDay: int := 864_000_000_000

  /** A DateTimeOffset at the trigger's one fixed offset: a date and the ticks since its midnight. */
  datatype Instant = Instant(date: Date, time: int)

  predicate ValidInstant(t: Instant) {
    ValidDate(t.date) && 0 <= t.time < TicksPerDay
  }

  /** new DateTimeOffset(year, month, day, 0, 0, 0, offset). */
  function Midnight(d: Date): Instant {
    Instant(d, 0)
  }

  /** DateTimeOffset.UtcTicks up to the constant offset: what its comparisons compare. */
  function Ticks(t: Instant): int
    requires ValidDate(t.date)
  {
    DayNumber(t.date) * TicksPerDay + t.time
  }

  /** Instants compare as their dates, then their times of day. */
  lemma TicksOrder(a: Instant, b: Instant)
    requires ValidInstant(a) && ValidInstant(b)
    ensures Ticks(a) < Ticks(b) <==> DateBefore(a.date, b.date) || (a.date == b.date && a.time < b.time)
    ensures Ticks(a) == Ticks(b) <==> a == b
  {
    DayNumberOrder(a.date, b.date);
    var da, db := DayNumber(a.date), DayNumber(b.date);
    if da < db {
      assert da * TicksPerDay + TicksPerDay <= db * TicksPerDay;
    } else if db < da {
      assert db * TicksPerDay + TicksPerDay <= da * TicksPerDay;
    }
  }
}
