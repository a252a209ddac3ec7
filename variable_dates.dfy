/**
 * The "nth weekday of the month" part of DayOfMonthTrigger:
 * GetVariableDateOfMonth and GetNextMonthWithValidVariableDate, each as a
 * method with the source's loop and a function that specifies it.
 */
module VariableDates {
  import opened Wrappers
  import opened Calendar
  import opened TriggerTypes

  lemma DayIndexInjective(a: DayOfWeek, b: DayOfWeek)
    ensures DayIndex(a) == DayIndex(b) ==> a == b
  {
  }

  /**
   * Weekday arithmetic: with w the weekday of the 1st and t the one wanted,
   * (t - w) % 7 days on is the first t, and no smaller offset a lands on t.
   */
  lemma FirstOffset(w: int, t: int, a: int)
    requires 0 <= w < 7 && 0 <= t < 7 && 0 <= a <= (t - w) % 7
    ensures (w + a) % 7 == t <==> a == (t - w) % 7
  {
    var o := (t - w) % 7;
    assert t - w == 7 * ((t - w) / 7) + o;
    assert w + a == 7 * ((w + a) / 7) + (w + a) % 7;
  }

  /** Whole weeks do not change the weekday. */
  lemma WholeWeeks(t: int, j: int)
    ensures (t + 7 * j) % 7 == t % 7
  {
    var u := t + 7 * j;
    assert u == 7 * (u / 7) + u % 7;
    assert t == 7 * (t / 7) + t % 7;
    assert 7 * (t / 7 + j - u / 7) == u % 7 - t % 7;
  }

  /** The day of the month (1..7) of the first `dow` in month (y, m). */
  function FirstOccurrence(y: int, m: int, dow: DayOfWeek): (f: int)
    requires 1 <= m <= 12
    ensures 1 <= f <= 7
  {
    1 + (DayIndex(dow) - DayIndex(DayOfWeekOf(Date(y, m, 1)))) % 7
  }

  /** FirstOccurrence falls on `dow`, and no earlier day of the month does. */
  lemma FirstOccurrenceIsFirst(y: int, m: int, dow: DayOfWeek)
    requires 1 <= m <= 12
    ensures DayOfWeekOf(Date(y, m, FirstOccurrence(y, m, dow))) == dow
    ensures forall e :: 1 <= e < FirstOccurrence(y, m, dow) ==> DayOfWeekOf(Date(y, m, e)) != dow
  {
    var w: int := DayIndex(DayOfWeekOf(Date(y, m, 1)));
    var f := FirstOccurrence(y, m, dow);
    WeekdayInMonth(y, m, f);
    FirstOffset(w, DayIndex(dow), f - 1);
    DayIndexInjective(DayOfWeekOf(Date(y, m, f)), dow);
    forall e | 1 <= e < f
      ensures DayOfWeekOf(Date(y, m, e)) != dow
    {
      WeekdayInMonth(y, m, e);
      FirstOffset(w, DayIndex(dow), e - 1);
    }
  }

  /** The date (n-1) weeks after the first `dow` of date's month; it may leave the month. */
  function NthWeekdayTarget(date: Date, n: int, dow: DayOfWeek): Date
    requires ValidDate(date)
  {
    AddDays(Date(date.year, date.month, FirstOccurrence(date.year, date.month, dow)), (n - 1) * 7)
  }

  /**
   * GetVariableDateOfMonth as the source writes its final test: only the
   * month of the target is compared with the month asked for.
   */
  function VariableDateOfMonthAsWritten(date: Date, n: int, dow: DayOfWeek): int
    requires ValidDate(date)
  {
    var target := NthWeekdayTarget(date, n, dow);
    if date.month != target.month then -1 else target.day
  }

  /**
   * GetVariableDateOfMonth, corrected: the day of the nth `dow` of date's
   * month, which lies (n-1) whole weeks after the first one, or -1 when that
   * day falls outside the month.
   */
  function VariableDateOfMonth(date: Date, n: int, dow: DayOfWeek): (r: int)
    requires ValidDate(date)
    ensures r == -1 || Representable(date.year, date.month, r)
  {
    var k := FirstOccurrence(date.year, date.month, dow) + 7 * (n - 1);
    if 1 <= k <= DaysInMonth(date.year, date.month) then k else -1
  }

  /**
   * The day found is a `dow` of the month, (n-1) weeks after the first one;
   * -1 comes back exactly when that day is not in the month.
   */
  lemma VariableDateOfMonthIsNthWeekday(date: Date, n: int, dow: DayOfWeek)
    requires ValidDate(date)
    ensures var r := VariableDateOfMonth(date, n, dow);
            var f := FirstOccurrence(date.year, date.month, dow);
            && (r == -1 <==> !Representable(date.year, date.month, f + 7 * (n - 1)))
            && (r != -1 ==> r == f + 7 * (n - 1) && DayOfWeekOf(Date(date.year, date.month, r)) == dow)
  {
    var f := FirstOccurrence(date.year, date.month, dow);
    var k := f + 7 * (n - 1);
    if 1 <= k <= DaysInMonth(date.year, date.month) {
      var w: int := DayIndex(DayOfWeekOf(Date(date.year, date.month, 1)));
      WeekdayInMonth(date.year, date.month, k);
      WeekdayInMonth(date.year, date.month, f);
      FirstOffset(w, DayIndex(dow), f - 1);
      WholeWeeks(w + f - 1, n - 1);
      DayIndexInjective(DayOfWeekOf(Date(date.year, date.month, k)), dow);
    }
  }

  /** No nth weekday for n outside 1..5; for 1..4 there always is one. */
  lemma VariableDateOfMonthRange(date: Date, n: int, dow: DayOfWeek)
    requires ValidDate(date)
    ensures n <= 0 || n >= 6 ==> VariableDateOfMonth(date, n, dow) == -1
    ensures 1 <= n <= 4 ==> VariableDateOfMonth(date, n, dow) != -1
  {
  }

  /** The target of an in-range n is at most 34 days on, so it lies in this month or the next. */
  lemma TargetWithinNextMonth(date: Date, n: int, dow: DayOfWeek)
    requires ValidDate(date) && 1 <= n <= 5
    ensures var t := NthWeekdayTarget(date, n, dow);
            var next := FirstOfNextMonth(date);
            (t.year == date.year && t.month == date.month) || (t.year == next.year && t.month == next.month)
  {
    var start := Date(date.year, date.month, FirstOccurrence(date.year, date.month, dow));
    if start.day + (n - 1) * 7 > DaysInMonth(date.year, date.month) {
      AddDaysIntoNextMonth(start, (n - 1) * 7);
    } else {
      AddDaysSameMonth(start, (n - 1) * 7);
    }
  }

  /** The target, when it stays in the month, is the day the corrected function computes. */
  lemma TargetInMonth(date: Date, n: int, dow: DayOfWeek)
    requires ValidDate(date)
    ensures var t := NthWeekdayTarget(date, n, dow);
            var k := FirstOccurrence(date.year, date.month, dow) + 7 * (n - 1);
            (t.year == date.year && t.month == date.month) <==> 1 <= k <= DaysInMonth(date.year, date.month)
    ensures var t := NthWeekdayTarget(date, n, dow);
            t.year == date.year && t.month == date.month ==> t.day == VariableDateOfMonth(date, n, dow)
  {
    AddDaysSameMonth(Date(date.year, date.month, FirstOccurrence(date.year, date.month, dow)), (n - 1) * 7);
  }

  /** For the n the trigger accepts, the month-only test gives the corrected answer. */
  lemma AsWrittenAgreesInRange(date: Date, n: int, dow: DayOfWeek)
    requires ValidDate(date) && 1 <= n <= 5
    ensures VariableDateOfMonthAsWritten(date, n, dow) == VariableDateOfMonth(date, n, dow)
  {
    TargetWithinNextMonth(date, n, dow);
    TargetInMonth(date, n, dow);
  }

  /** Both variants, given the target by its day number. */
  lemma VariableDateOfMonthByTarget(date: Date, n: int, dow: DayOfWeek, target: Date)
    requires ValidDate(date) && ValidDate(target)
    requires DayNumber(target) == DayNumber(Date(date.year, date.month, FirstOccurrence(date.year, date.month, dow))) + (n - 1) * 7
    ensures VariableDateOfMonthAsWritten(date, n, dow) == if date.month != target.month then -1 else target.day
    ensures VariableDateOfMonth(date, n, dow)
         == if date.year != target.year || date.month != target.month then -1 else target.day
  {
    AddDaysByDayNumber(Date(date.year, date.month, FirstOccurrence(date.year, date.month, dow)), (n - 1) * 7, target);
    TargetInMonth(date, n, dow);
  }

  lemma FirstWednesdayOfJanuary2025()
    ensures FirstOccurrence(2025, 1, Wednesday) == 1
  {
    assert DayOfWeekOf(Date(2025, 1, 1)) == Wednesday;
  }

  /** 7 January 2026 is 53 weeks after 1 January 2025. */
  lemma FiftyThreeWeeksLater(a: Date, b: Date)
    requires a == Date(2026, 1, 7) && b == Date(2025, 1, 1)
    ensures DayNumber(a) == DayNumber(b) + 53 * 7
  {
    assert DayNumber(Date(2026, 1, 7)) == DayNumber(Date(2025, 1, 1)) + 371;
  }

  /**
   * Counterexample to the month-only test: there is no 54th Wednesday in
   * January 2025, but 53 weeks after 1 January 2025 is 7 January 2026, a
   * January, so the code as written answers 7.
   */
  lemma AsWrittenFindsDayInNextYear(date: Date, n: int, target: Date)
    requires date == Date(2025, 1, 13) && n == 54 && target == Date(2026, 1, 7)
    ensures VariableDateOfMonthAsWritten(date, n, Wednesday) == 7
    ensures VariableDateOfMonth(date, n, Wednesday) == -1
  {
    assert DayNumber(target)
        == DayNumber(Date(date.year, date.month, FirstOccurrence(date.year, date.month, Wednesday))) + (n - 1) * 7 by {
      FirstWednesdayOfJanuary2025();
      assert Date(date.year, date.month, FirstOccurrence(date.year, date.month, Wednesday)) == Date(2025, 1, 1);
      FiftyThreeWeeksLater(target, Date(2025, 1, 1));
    }
    VariableDateOfMonthByTarget(date, n, Wednesday, target);
  }

  /** The source's loop: step from the 1st to the first `dow`, add whole weeks, test the month. */
  method GetVariableDateOfMonth(date: Date, nthWeekday: int, dayOfWeek: DayOfWeek) returns (r: int)
    requires ValidDate(date)
    ensures r == VariableDateOfMonth(date, nthWeekday, dayOfWeek)
  {
    var f := FirstOccurrence(date.year, date.month, dayOfWeek);
    FirstOccurrenceIsFirst(date.year, date.month, dayOfWeek);
    var cur := Date(date.year, date.month, 1);
    while DayOfWeekOf(cur) != dayOfWeek
      invariant cur == Date(date.year, date.month, cur.day)
      invariant 1 <= cur.day <= f
      decreases f - cur.day
    {
      AddDaysSameMonth(cur, 1);
      cur := AddDays(cur, 1);
    }
    assert cur.day == f;
    TargetInMonth(date, nthWeekday, dayOfWeek);
    cur := AddDays(cur, (nthWeekday - 1) * 7);
    if date.year != cur.year || date.month != cur.month {
      r := -1;
    } else {
      r := cur.day;
    }
  }

  /** The per-month resolver the search applies: GetVariableDateOfMonth for n and dow. */
  function MonthResolver(n: int, dow: DayOfWeek): Date -> int
  {
    d => if ValidDate(d) then VariableDateOfMonth(d, n, dow) else -1
  }

  /** A resolver that answers -1 or a day the examined month has, as MonthResolver does. */
  ghost predicate InMonth(resolve: Date -> int)
  {
    forall d {:trigger resolve(d)} :: ValidDate(d) ==> resolve(d) == -1 || Representable(d.year, d.month, resolve(d))
  }

  /**
   * The date the source builds from a month and the day found for it: the
   * 1st of that month moved on by runDate - 1 days. This is day runDate of
   * the month when the month has that day, and a day of a later month
   * otherwise.
   */
  function RunDate(date: Date, runDate: int): (r: Date)
    requires ValidDate(date)
    ensures ValidDate(r)
    ensures DayNumber(r) == DayNumber(Date(date.year, date.month, 1)) + runDate - 1
    ensures Representable(date.year, date.month, runDate) ==> r == Date(date.year, date.month, runDate)
  {
    if Representable(date.year, date.month, runDate) then
      DayFromFirstOfMonth(date, runDate);
      AddDays(FirstOfMonth(date), runDate - 1)
    else AddDays(FirstOfMonth(date), runDate - 1)
  }

  /**
   * The bounded search after `tried` of its 13 months have been examined
   * without a result: the first of months after+tried+1 .. after+13 for which
   * `resolve` gives a day, or with LastDayOfMonth the last day of the next
   * month examined; None when the 13 months run out.
   */
  function SearchMonths(resolve: Date -> int, after: Date, handling: UnrepresentableDateHandling, tried: int): (r: Option<Date>)
    requires ValidDate(after) && 0 <= tried
    ensures r.Some? ==> ValidDate(r.value)
    decreases 13 - tried
  {
    if tried >= 13 then None
    else
      var date := AddMonths(after, tried + 1);
      var runDate := resolve(date);
      if runDate == -1 then
        if handling == LastDayOfMonth then Some(LastDateOfMonth(date.year, date.month))
        else SearchMonths(resolve, after, handling, tried + 1)
      else Some(RunDate(date, runDate))
  }

  /**
   * When the test only ever answers days the month has, a result lies in one
   * of the months still to be examined, after+tried+1 .. after+13.
   */
  lemma {:induction false} SearchMonthsWithin(resolve: Date -> int, after: Date, handling: UnrepresentableDateHandling, tried: int)
    requires ValidDate(after) && 0 <= tried && InMonth(resolve)
    ensures var r := SearchMonths(resolve, after, handling, tried);
            r.Some? ==> MonthIndex(after) + tried < MonthIndex(r.value) <= MonthIndex(after) + 13
    decreases 13 - tried
  {
    if tried < 13 {
      var date := AddMonths(after, tried + 1);
      if resolve(date) != -1 {
        SearchMonthsFoundNext(resolve, after, handling, tried);
      } else if handling == Skip {
        SearchMonthsSkipStep(resolve, after, tried);
        SearchMonthsWithin(resolve, after, handling, tried + 1);
      } else {
        SearchMonthsRound(resolve, after, handling, tried);
      }
    }
  }

  /**
   * GetNextMonthWithValidVariableDate over the corrected test: None where that
   * search finds nothing in 13 months, which for n in 1..5 never happens.
   */
  function NextMonthWithValidVariableDate(after: Date, handling: UnrepresentableDateHandling, n: int, dow: DayOfWeek): Option<Date>
    requires ValidDate(after)
  {
    SearchMonths(MonthResolver(n, dow), after, handling, 0)
  }

  /** One round of the search, as the loop body below performs it. */
  lemma SearchMonthsRound(resolve: Date -> int, after: Date, handling: UnrepresentableDateHandling, tried: int)
    requires ValidDate(after) && 0 <= tried < 13
    ensures var date := AddMonths(after, tried + 1);
            var runDate := resolve(date);
            SearchMonths(resolve, after, handling, tried)
              == if runDate != -1 then Some(RunDate(date, runDate))
                 else if handling == LastDayOfMonth then Some(LastDateOfMonth(date.year, date.month))
                 else SearchMonths(resolve, after, handling, tried + 1)
  {
  }

  /** The first of the month moved on by day - 1 days is that day of the month. */
  lemma DayFromFirstOfMonth(d: Date, day: int)
    requires ValidDate(d) && Representable(d.year, d.month, day)
    ensures AddDays(FirstOfMonth(d), day - 1) == Date(d.year, d.month, day)
  {
    AddDaysSameMonth(FirstOfMonth(d), day - 1);
  }

  method GetNextMonthWithValidVariableDate(after: Date, handling: UnrepresentableDateHandling, nthWeekday: int, dayOfWeek: DayOfWeek)
    returns (r: Option<Date>)
    requires ValidDate(after)
    ensures r == NextMonthWithValidVariableDate(after, handling, nthWeekday, dayOfWeek)
  {
    ghost var resolve := MonthResolver(nthWeekday, dayOfWeek);
    var returnValue: Option<Date> := None;
    var sanity := 0;
    while sanity < 13
      invariant 0 <= sanity <= 13
      invariant returnValue == None
      invariant NextMonthWithValidVariableDate(after, handling, nthWeekday, dayOfWeek)
             == SearchMonths(resolve, after, handling, sanity)
    {
      ghost var tried := sanity;
      SearchMonthsRound(resolve, after, handling, tried);
      sanity := sanity + 1;
      var date: Option<Date> := Some(AddMonths(after, sanity));
      var runDate := GetVariableDateOfMonth(date.value, nthWeekday, dayOfWeek);
      assert runDate == resolve(date.value);
      if runDate == -1 {
        if handling == LastDayOfMonth {
          returnValue := Some(LastDateOfMonth(date.value.year, date.value.month));
          assert returnValue == SearchMonths(resolve, after, handling, tried);
          break;
        } else {
          assert SearchMonths(resolve, after, handling, tried) == SearchMonths(resolve, after, handling, sanity);
          date := None;
        }
      } else {
        DayFromFirstOfMonth(date.value, runDate);
        date := Some(AddDays(FirstOfMonth(date.value), runDate - 1));
      }
      if date.Some? {
        returnValue := date;
        break;
      }
    }
    r := returnValue;
  }

  /** No month after+lo .. after+(hi-1) has the nth `dow`. */
  ghost predicate NoPatternIn(after: Date, n: int, dow: DayOfWeek, lo: int, hi: int)
    requires ValidDate(after)
  {
    forall j :: lo <= j < hi ==> VariableDateOfMonth(AddMonths(after, j), n, dow) == -1
  }

  /** The corrected resolver only looks at the year and month of its argument. */
  lemma VariableDateOfMonthOfMonth(a: Date, b: Date, n: int, dow: DayOfWeek)
    requires ValidDate(a) && ValidDate(b) && a.year == b.year && a.month == b.month
    ensures VariableDateOfMonth(a, n, dow) == VariableDateOfMonth(b, n, dow)
  {
  }

  /** Months from `after` to the Skip search's result, or 14 when there is none. */
  function SkipLimit(after: Date, r: Option<Date>): int
  {
    if r.Some? then MonthIndex(r.value) - MonthIndex(after) else 14
  }

  /** With Skip a result of the search is the resolved day of the month it was found in. */
  lemma {:induction false} SearchMonthsSkipFound(resolve: Date -> int, after: Date, tried: int)
    requires ValidDate(after) && 0 <= tried <= 13 && InMonth(resolve)
    ensures var r := SearchMonths(resolve, after, Skip, tried);
            var month := AddMonths(after, SkipLimit(after, r));
            r.Some? ==> resolve(month) != -1 && r.value == Date(month.year, month.month, resolve(month))
    decreases 13 - tried
  {
    if tried < 13 {
      var date := AddMonths(after, tried + 1);
      if resolve(date) == -1 {
        SearchMonthsSkipStep(resolve, after, tried);
        SearchMonthsSkipFound(resolve, after, tried + 1);
      } else {
        SearchMonthsRound(resolve, after, Skip, tried);
        assert Representable(date.year, date.month, resolve(date));
        assert SkipLimit(after, SearchMonths(resolve, after, Skip, tried)) == tried + 1;
      }
    }
  }

  /** A month the test gives a day for ends the search there. */
  lemma SearchMonthsFoundNext(resolve: Date -> int, after: Date, handling: UnrepresentableDateHandling, tried: int)
    requires ValidDate(after) && 0 <= tried < 13 && InMonth(resolve)
    requires resolve(AddMonths(after, tried + 1)) != -1
    ensures var r := SearchMonths(resolve, after, handling, tried);
            r.Some? && MonthIndex(r.value) == MonthIndex(after) + tried + 1
  {
    SearchMonthsRound(resolve, after, handling, tried);
  }

  /** A month the test gives no day for passes a Skip search on to the next month. */
  lemma SearchMonthsSkipStep(resolve: Date -> int, after: Date, tried: int)
    requires ValidDate(after) && 0 <= tried < 13
    requires resolve(AddMonths(after, tried + 1)) == -1
    ensures SearchMonths(resolve, after, Skip, tried) == SearchMonths(resolve, after, Skip, tried + 1)
  {
  }

  /**
   * With Skip no month after+j strictly between the months already tried and
   * the result's month resolves to a day; with no result, none up to after+13.
   */
  lemma {:induction false} SearchMonthsSkipGap(resolve: Date -> int, after: Date, tried: int, j: int)
    requires ValidDate(after) && 0 <= tried < j <= 13 && InMonth(resolve)
    requires j < SkipLimit(after, SearchMonths(resolve, after, Skip, tried))
    ensures resolve(AddMonths(after, j)) == -1
    decreases j - tried
  {
    if resolve(AddMonths(after, tried + 1)) != -1 {
      SearchMonthsFoundNext(resolve, after, Skip, tried);
      assert false;
    }
    SearchMonthsSkipStep(resolve, after, tried);
    if tried + 1 < j {
      SearchMonthsSkipGap(resolve, after, tried + 1, j);
    }
  }

  /** x % 7 is the remainder of any decomposition x == 7 * q + r with 0 <= r < 7. */
  lemma ModSevenUnique(x: int, q: int, r: int)
    requires x == 7 * q + r && 0 <= r < 7
    ensures x % 7 == r
  {
    assert x == 7 * (x / 7) + x % 7;
  }

  /**
   * Offsets of the first `dow`: w is the weekday of this month's 1st, len the
   * month's length; next month's 1st falls on (w + len) % 7.
   */
  lemma OffsetArith(w: int, t: int, len: int)
    requires 0 <= w < 7 && 0 <= t < 7 && 28 <= len <= 31
    requires (t - w) % 7 + 29 > len
    ensures (t - (w + len) % 7) % 7 == (t - w) % 7 - (len - 28)
  {
    var o := (t - w) % 7;
    var w' := (w + len) % 7;
    assert t - w == 7 * ((t - w) / 7) + o;
    assert w + len == 7 * ((w + len) / 7) + w';
    ModSevenUnique(t - w', (t - w) / 7 + (w + len) / 7 - 4, o - (len - 28));
  }

  /** Consecutive months change the first-`dow` offset by the earlier month's length beyond 28 days. */
  lemma OffsetStep(d: Date, e: Date, dow: DayOfWeek)
    requires ValidDate(d) && ValidDate(e) && MonthIndex(e) == MonthIndex(d) + 1
    requires FirstOccurrence(d.year, d.month, dow) + 28 > DaysInMonth(d.year, d.month)
    ensures FirstOccurrence(e.year, e.month, dow) == FirstOccurrence(d.year, d.month, dow) - (DaysInMonth(d.year, d.month) - 28)
  {
    var next := FirstOfNextMonth(d);
    MonthIndexInjective(e, next);
    WeekdayOfNextMonth(d);
    OffsetArith(DayIndex(DayOfWeekOf(FirstOfMonth(d))), DayIndex(dow), DaysInMonth(d.year, d.month));
  }

  /** Any four consecutive months have at least 119 days. */
  lemma FourMonthLengths(a: Date, b: Date, c: Date, d: Date)
    requires ValidDate(a) && ValidDate(b) && ValidDate(c) && ValidDate(d)
    requires MonthIndex(b) == MonthIndex(a) + 1 && MonthIndex(c) == MonthIndex(b) + 1 && MonthIndex(d) == MonthIndex(c) + 1
    ensures DaysInMonth(a.year, a.month) + DaysInMonth(b.year, b.month) + DaysInMonth(c.year, c.month) + DaysInMonth(d.year, d.month) >= 119
  {
  }

  /** Some month among the four after `after` has a fifth `dow`. */
  lemma FifthWeekdayWithinFourMonths(after: Date, dow: DayOfWeek)
    requires ValidDate(after)
    ensures exists k :: 1 <= k <= 4 && VariableDateOfMonth(AddMonths(after, k), 5, dow) != -1
  {
    var m1, m2, m3, m4 := AddMonths(after, 1), AddMonths(after, 2), AddMonths(after, 3), AddMonths(after, 4);
    if VariableDateOfMonth(m1, 5, dow) != -1 {
      assert VariableDateOfMonth(AddMonths(after, 1), 5, dow) != -1;
    } else if VariableDateOfMonth(m2, 5, dow) != -1 {
      assert VariableDateOfMonth(AddMonths(after, 2), 5, dow) != -1;
    } else if VariableDateOfMonth(m3, 5, dow) != -1 {
      assert VariableDateOfMonth(AddMonths(after, 3), 5, dow) != -1;
    } else {
      OffsetStep(m1, m2, dow);
      OffsetStep(m2, m3, dow);
      OffsetStep(m3, m4, dow);
      FourMonthLengths(m1, m2, m3, m4);
      assert VariableDateOfMonth(AddMonths(after, 4), 5, dow) != -1;
    }
  }

  /** Some month among the four after `after` has the nth `dow`, for n in 1..5. */
  lemma PatternWithinFourMonths(after: Date, n: int, dow: DayOfWeek)
    requires ValidDate(after) && 1 <= n <= 5
    ensures exists k :: 1 <= k <= 4 && VariableDateOfMonth(AddMonths(after, k), n, dow) != -1
  {
    if n == 5 {
      FifthWeekdayWithinFourMonths(after, dow);
    } else {
      VariableDateOfMonthRange(AddMonths(after, 1), n, dow);
    }
  }

  /** With Skip and n in 1..5 the search finds a month within four months of `after`. */
  lemma NextMonthSkipWithinFour(after: Date, n: int, dow: DayOfWeek)
    requires ValidDate(after) && 1 <= n <= 5
    ensures var r := NextMonthWithValidVariableDate(after, Skip, n, dow);
            r.Some? && MonthIndex(r.value) <= MonthIndex(after) + 4
  {
    var r := NextMonthWithValidVariableDate(after, Skip, n, dow);
    PatternWithinFourMonths(after, n, dow);
    var k :| 1 <= k <= 4 && VariableDateOfMonth(AddMonths(after, k), n, dow) != -1;
    if SkipLimit(after, r) > k {
      SearchMonthsSkipGap(MonthResolver(n, dow), after, 0, k);
    }
  }

  /** With Skip a found date is a valid date carrying its month's nth `dow`. */
  lemma NextMonthSkipDay(after: Date, n: int, dow: DayOfWeek)
    requires ValidDate(after)
    ensures var r := NextMonthWithValidVariableDate(after, Skip, n, dow);
            r.Some? ==> ValidDate(r.value) && r.value.day == VariableDateOfMonth(r.value, n, dow)
  {
    var r := NextMonthWithValidVariableDate(after, Skip, n, dow);
    SearchMonthsSkipFound(MonthResolver(n, dow), after, 0);
    if r.Some? {
      VariableDateOfMonthOfMonth(r.value, AddMonths(after, SkipLimit(after, r)), n, dow);
    }
  }

  /** With Skip no month before the found one has the nth `dow`. */
  lemma NextMonthSkipFirst(after: Date, n: int, dow: DayOfWeek)
    requires ValidDate(after)
    ensures var r := NextMonthWithValidVariableDate(after, Skip, n, dow);
            r.Some? ==> NoPatternIn(after, n, dow, 1, MonthIndex(r.value) - MonthIndex(after))
  {
    var r := NextMonthWithValidVariableDate(after, Skip, n, dow);
    SearchMonthsWithin(MonthResolver(n, dow), after, Skip, 0);
    if r.Some? {
      forall j | 1 <= j < MonthIndex(r.value) - MonthIndex(after)
        ensures VariableDateOfMonth(AddMonths(after, j), n, dow) == -1
      {
        SearchMonthsSkipGap(MonthResolver(n, dow), after, 0, j);
      }
    }
  }

  /**
   * For n in 1..5 and Skip the search always succeeds, within four months:
   * the result is the pattern day of the first later month that has it.
   */
  lemma NextMonthSkip(after: Date, n: int, dow: DayOfWeek)
    requires ValidDate(after) && 1 <= n <= 5
    ensures var r := NextMonthWithValidVariableDate(after, Skip, n, dow);
            && r.Some?
            && MonthIndex(after) + 1 <= MonthIndex(r.value) <= MonthIndex(after) + 4
            && ValidDate(r.value)
            && r.value.day == VariableDateOfMonth(r.value, n, dow)
            && NoPatternIn(after, n, dow, 1, MonthIndex(r.value) - MonthIndex(after))
  {
    SearchMonthsWithin(MonthResolver(n, dow), after, Skip, 0);
    NextMonthSkipWithinFour(after, n, dow);
    NextMonthSkipDay(after, n, dow);
    NextMonthSkipFirst(after, n, dow);
  }

  /**
   * With LastDayOfMonth the result is always in the month right after
   * `after`: the pattern day there, or that month's last day.
   */
  lemma NextMonthLastDayOfMonth(after: Date, n: int, dow: DayOfWeek)
    requires ValidDate(after)
    ensures var r := NextMonthWithValidVariableDate(after, LastDayOfMonth, n, dow);
            var next := AddMonths(after, 1);
            var v := VariableDateOfMonth(next, n, dow);
            && r.Some?
            && MonthIndex(r.value) == MonthIndex(after) + 1
            && r.value == Date(next.year, next.month, if v == -1 then DaysInMonth(next.year, next.month) else v)
  {
    SearchMonthsRound(MonthResolver(n, dow), after, LastDayOfMonth, 0);
  }

  /** With n outside 1..5 and Skip no month passes the corrected test, so the search finds nothing. */
  lemma NextMonthOutOfRange(after: Date, n: int, dow: DayOfWeek)
    requires ValidDate(after) && (n <= 0 || n >= 6)
    ensures NextMonthWithValidVariableDate(after, Skip, n, dow) == None
  {
    var r := NextMonthWithValidVariableDate(after, Skip, n, dow);
    SearchMonthsSkipFound(MonthResolver(n, dow), after, 0);
    if r.Some? {
      VariableDateOfMonthRange(AddMonths(after, SkipLimit(after, r)), n, dow);
    }
  }

  /** The per-month resolver with the month-only test, as the source's search calls it. */
  function AsWrittenResolver(n: int, dow: DayOfWeek): Date -> int
  {
    d => if ValidDate(d) then VariableDateOfMonthAsWritten(d, n, dow) else -1
  }

  /** GetNextMonthWithValidVariableDate as written, over the month-only test. */
  function NextMonthWithValidVariableDateAsWritten(after: Date, handling: UnrepresentableDateHandling, n: int, dow: DayOfWeek): Option<Date>
    requires ValidDate(after)
  {
    SearchMonths(AsWrittenResolver(n, dow), after, handling, 0)
  }

  /** Two resolvers that agree on every valid date give the same search. */
  lemma {:induction false} SearchMonthsAgree(r1: Date -> int, r2: Date -> int, after: Date, handling: UnrepresentableDateHandling, tried: int)
    requires ValidDate(after) && 0 <= tried
    requires forall d :: ValidDate(d) ==> r1(d) == r2(d)
    ensures SearchMonths(r1, after, handling, tried) == SearchMonths(r2, after, handling, tried)
    decreases 13 - tried
  {
    if tried < 13 {
      var date := AddMonths(after, tried + 1);
      assert r1(date) == r2(date);
      SearchMonthsRound(r1, after, handling, tried);
      SearchMonthsRound(r2, after, handling, tried);
      SearchMonthsAgree(r1, r2, after, handling, tried + 1);
    }
  }

  /** For the n the trigger passes, the search as written finds what the corrected one finds. */
  lemma AsWrittenSearchAgreesInRange(after: Date, handling: UnrepresentableDateHandling, n: int, dow: DayOfWeek)
    requires ValidDate(after) && 1 <= n <= 5
    ensures NextMonthWithValidVariableDateAsWritten(after, handling, n, dow) == NextMonthWithValidVariableDate(after, handling, n, dow)
  {
    forall d | ValidDate(d)
      ensures AsWrittenResolver(n, dow)(d) == MonthResolver(n, dow)(d)
    {
      AsWrittenAgreesInRange(d, n, dow);
    }
    SearchMonthsAgree(AsWrittenResolver(n, dow), MonthResolver(n, dow), after, handling, 0);
  }

  /**
   * Outside 1..5 they differ: from 13 December 2024 the search as written
   * takes 7 January 2026 for the 54th Wednesday of January 2025 and returns
   * 7 January 2025, where the corrected search finds nothing.
   */
  lemma AsWrittenSearchFindsDayInNextYear(after: Date, n: int)
    requires after == Date(2024, 12, 13) && n == 54
    ensures NextMonthWithValidVariableDateAsWritten(after, Skip, n, Wednesday) == Some(Date(2025, 1, 7))
    ensures NextMonthWithValidVariableDate(after, Skip, n, Wednesday) == None
  {
    var date := AddMonths(after, 1);
    assert date == Date(2025, 1, 13);
    AsWrittenFindsDayInNextYear(date, n, Date(2026, 1, 7));
    SearchMonthsRound(AsWrittenResolver(n, Wednesday), after, Skip, 0);
    DayFromFirstOfMonth(date, 7);
    NextMonthOutOfRange(after, n, Wednesday);
  }

  lemma FirstTuesdayOfFebruary2025()
    ensures FirstOccurrence(2025, 2, Tuesday) == 4
  {
    assert DayOfWeekOf(Date(2025, 2, 1)) == Saturday;
  }

  /** 29 February 2028 is 160 weeks after 4 February 2025. */
  lemma HundredSixtyWeeksLater(a: Date, b: Date)
    requires a == Date(2028, 2, 29) && b == Date(2025, 2, 4)
    ensures DayNumber(a) == DayNumber(b) + 160 * 7
  {
    assert DayNumber(Date(2028, 2, 29)) == DayNumber(Date(2025, 2, 4)) + 1120;
  }

  /**
   * The month-only test on a February: 160 weeks after the first Tuesday of
   * February 2025 is 29 February 2028, so the code as written answers 29 for
   * the 161st Tuesday, a day February 2025 does not have.
   */
  lemma AsWrittenFindsLeapDay(date: Date, n: int, target: Date)
    requires date == Date(2025, 2, 15) && n == 161 && target == Date(2028, 2, 29)
    ensures VariableDateOfMonthAsWritten(date, n, Tuesday) == 29
    ensures VariableDateOfMonth(date, n, Tuesday) == -1
  {
    assert DayNumber(target)
        == DayNumber(Date(date.year, date.month, FirstOccurrence(date.year, date.month, Tuesday))) + (n - 1) * 7 by {
      FirstTuesdayOfFebruary2025();
      assert Date(date.year, date.month, FirstOccurrence(date.year, date.month, Tuesday)) == Date(2025, 2, 4);
      HundredSixtyWeeksLater(target, Date(2025, 2, 4));
    }
    VariableDateOfMonthByTarget(date, n, Tuesday, target);
  }

  /**
   * Counterexample to the search over the month-only test: after 15 January
   * 2025 with Skip, February answers 29 for the 161st Tuesday, and the 1st of
   * February moved on by 28 days is 1 March 2025, which the search returns;
   * the corrected search finds nothing.
   */
  lemma AsWrittenSearchRollsIntoMarch(after: Date, n: int)
    requires after == Date(2025, 1, 15) && n == 161
    ensures NextMonthWithValidVariableDateAsWritten(after, Skip, n, Tuesday) == Some(Date(2025, 3, 1))
    ensures NextMonthWithValidVariableDate(after, Skip, n, Tuesday) == None
  {
    var date := AddMonths(after, 1);
    assert date == Date(2025, 2, 15);
    AsWrittenFindsLeapDay(date, n, Date(2028, 2, 29));
    SearchMonthsRound(AsWrittenResolver(n, Tuesday), after, Skip, 0);
    DayNumberNextMonth(date);
    AddDaysByDayNumber(FirstOfMonth(date), 28, Date(2025, 3, 1));
    NextMonthOutOfRange(after, n, Tuesday);
  }
}
