/**
 * DayOfMonthTrigger.GetNextDayOfMonth: for one configured day (or, in
 * VariableDate mode, the configured nth weekday) the 0-2 candidate dates
 * from which the daily time-of-day logic then looks for the next run.
 * The source is an iterator; here its output is a sequence, produced by a
 * method with the source's loop and specified by a function.
 */
module Resolver {
  import opened Wrappers
  import opened Calendar
  import opened TriggerTypes
  import opened VariableDates

  /**
   * The later-this-month search for a specific day, after `tries` rounds.
   * A round builds the day in month after.month + tries of after's year; if
   * that date does not exist (a short month, or a month past 12), LastDayOfMonth
   * takes the month's last day instead and Skip moves to the next month.
   * Only Skip ever gets past the first round.
   */
  function LaterSearch(after: Date, day: int, handling: UnrepresentableDateHandling, tries: int): (r: Option<Date>)
    requires ValidDate(after) && 0 <= tries <= 6
    requires handling == LastDayOfMonth ==> tries == 0
    decreases 6 - tries
  {
    if tries == 6 then None
    else
      var month := after.month + tries;
      if Representable(after.year, month, day) then Some(Date(after.year, month, day))
      else if handling == LastDayOfMonth then Some(LastDateOfMonth(after.year, month))
      else LaterSearch(after, day, handling, tries + 1)
  }

  /** The future-day branch's loop: six tries, `month` moving on only under Skip. */
  method FindLaterDay(after: Date, dayOfMonth: int, handling: UnrepresentableDateHandling) returns (r: Option<Date>)
    requires ValidDate(after)
    ensures r == LaterSearch(after, dayOfMonth, handling, 0)
  {
    var sanity := 0;
    var month := after.month;
    while sanity < 6
      invariant 0 <= sanity <= 6
      invariant month == after.month + sanity
      invariant handling == LastDayOfMonth ==> sanity == 0
      invariant LaterSearch(after, dayOfMonth, handling, 0) == LaterSearch(after, dayOfMonth, handling, sanity)
    {
      ghost var tried := sanity;
      sanity := sanity + 1;
      var date: Option<Date> := None;
      if Representable(after.year, month, dayOfMonth) {
        date := Some(Date(after.year, month, dayOfMonth));
      } else if handling == LastDayOfMonth {
        date := Some(LastDateOfMonth(after.year, month));
      } else {
        month := month + 1;
      }
      if date.Some? {
        assert date == LaterSearch(after, dayOfMonth, handling, tried);
        return date;
      }
    }
    return None;
  }

  /** SpecificDate mode: the candidates for day `day` of the month. */
  function SpecificCandidates(after: Instant, day: int, handling: UnrepresentableDateHandling): seq<Instant>
    requires ValidInstant(after)
  {
    var a := after.date;
    if day < 1 || day > 32 then []
    else if day == a.day then
      [after, Midnight(AddDays(AddMonths(FirstOfMonth(a), 1), day - 1))]
    else if day < a.day then
      [Midnight(AddMonths(Date(a.year, a.month, day), 1))]
    else
      match LaterSearch(a, day, handling, 0)
      case None => []
      case Some(d) => [Midnight(d)]
  }

  /**
   * The next-month result as a candidate list; the source reads
   * returnValue.Value. For the n in 1..5 that reach here NextMonthFound shows
   * the search always has a result, so the empty list is never produced.
   */
  function NextRuntime(next: Option<Date>): seq<Instant> {
    if next.Some? then [Midnight(next.value)] else []
  }

  /** VariableDate mode: the candidates for the nth `dow` of the month. */
  function VariableCandidates(after: Instant, handling: UnrepresentableDateHandling, n: int, dow: DayOfWeek): seq<Instant>
    requires ValidInstant(after)
  {
    var a := after.date;
    if n < 1 || n > 5 then []
    else
      var thisMonth := VariableDateOfMonth(a, n, dow);
      var next := NextRuntime(NextMonthWithValidVariableDate(a, handling, n, dow));
      if thisMonth == -1 then
        if handling == LastDayOfMonth then
          var last := LastDateOfMonth(a.year, a.month);
          [Midnight(last)] + (if last.day == a.day then next else [])
        else next
      else if thisMonth == a.day then [after] + next
      else if thisMonth > a.day then [Midnight(Date(a.year, a.month, thisMonth))]
      else next
  }

  /** GetNextDayOfMonth: the candidates for one entry of TriggerDays. */
  function NextDayOfMonth(after: Instant, dayOfMonth: int, handling: UnrepresentableDateHandling,
                          triggerType: DayOfMonthTriggerType, nthWeekday: int, dayOfWeek: DayOfWeek): seq<Instant>
    requires ValidInstant(after)
  {
    match triggerType
    case VariableDate => VariableCandidates(after, handling, nthWeekday, dayOfWeek)
    case SpecificDate => SpecificCandidates(after, dayOfMonth, handling)
  }

  /** For n in 1..5 the next-month search always finds a date, in one of the 13 months after `after`. */
  lemma NextMonthFound(after: Date, handling: UnrepresentableDateHandling, n: int, dow: DayOfWeek)
    requires ValidDate(after) && 1 <= n <= 5
    ensures var r := NextMonthWithValidVariableDate(after, handling, n, dow);
            && r.Some?
            && ValidDate(r.value)
            && MonthIndex(after) < MonthIndex(r.value) <= MonthIndex(after) + 13
  {
    if handling == Skip {
      NextMonthSkip(after, n, dow);
    } else {
      NextMonthLastDayOfMonth(after, n, dow);
    }
  }

  /** The source's iterator, evaluated eagerly in the order it yields. */
  method GetNextDayOfMonth(after: Instant, dayOfMonth: int, handling: UnrepresentableDateHandling,
                           triggerType: DayOfMonthTriggerType, nthWeekday: int, dayOfWeek: DayOfWeek)
    returns (r: seq<Instant>)
    requires ValidInstant(after)
    ensures r == NextDayOfMonth(after, dayOfMonth, handling, triggerType, nthWeekday, dayOfWeek)
  {
    if triggerType == VariableDate {
      r := GetVariableCandidates(after, handling, nthWeekday, dayOfWeek);
    } else {
      r := GetSpecificCandidates(after, dayOfMonth, handling);
    }
  }

  /** The VariableDate half of the iterator. */
  method GetVariableCandidates(after: Instant, handling: UnrepresentableDateHandling, nthWeekday: int, dayOfWeek: DayOfWeek)
    returns (r: seq<Instant>)
    requires ValidInstant(after)
    ensures r == VariableCandidates(after, handling, nthWeekday, dayOfWeek)
  {
    var a := after.date;
    if nthWeekday < 1 || nthWeekday > 5 {
      return [];
    }
    var thisMonthDate := GetVariableDateOfMonth(a, nthWeekday, dayOfWeek);
    var nextMonth := GetNextMonthWithValidVariableDate(a, handling, nthWeekday, dayOfWeek);
    NextMonthFound(a, handling, nthWeekday, dayOfWeek);
    var nextRuntimeDate := Midnight(nextMonth.value);
    if thisMonthDate == -1 {
      if handling == LastDayOfMonth {
        var thisMonthRunDate := Midnight(LastDateOfMonth(a.year, a.month));
        r := [thisMonthRunDate];
        if thisMonthRunDate.date.day == a.day {
          r := r + [nextRuntimeDate];
        }
      } else {
        r := [nextRuntimeDate];
      }
    } else if thisMonthDate == a.day {
      r := [after, nextRuntimeDate];
    } else if thisMonthDate > a.day {
      r := [Midnight(Date(a.year, a.month, thisMonthDate))];
    } else {
      r := [nextRuntimeDate];
    }
  }

  /** The SpecificDate half of the iterator. */
  method GetSpecificCandidates(after: Instant, dayOfMonth: int, handling: UnrepresentableDateHandling)
    returns (r: seq<Instant>)
    requires ValidInstant(after)
    ensures r == SpecificCandidates(after, dayOfMonth, handling)
  {
    var a := after.date;
    if dayOfMonth < 1 || dayOfMonth > 32 {
      return [];
    }
    if dayOfMonth == a.day {
      r := [after, Midnight(AddDays(AddMonths(FirstOfMonth(a), 1), dayOfMonth - 1))];
    } else if dayOfMonth < a.day {
      r := [Midnight(AddMonths(Date(a.year, a.month, dayOfMonth), 1))];
    } else {
      var later := FindLaterDay(a, dayOfMonth, handling);
      r := if later.Some? then [Midnight(later.value)] else [];
    }
  }

  /**
   * The Skip search from round `tries` on: a result is day `day` of the first
   * month of after's year, from after.month + tries on and fewer than six
   * months past after.month, that has that day; None when none of them has.
   */
  lemma {:induction false} LaterSearchSkip(after: Date, day: int, tries: int)
    requires ValidDate(after) && 0 <= tries <= 6
    ensures var r := LaterSearch(after, day, Skip, tries);
            && (r.None? <==> forall m :: after.month + tries <= m < after.month + 6 ==> !Representable(after.year, m, day))
            && (r.Some? ==>
                  && r.value == Date(after.year, r.value.month, day)
                  && Representable(after.year, r.value.month, day)
                  && after.month + tries <= r.value.month < after.month + 6
                  && forall m :: after.month + tries <= m < r.value.month ==> !Representable(after.year, m, day))
    decreases 6 - tries
  {
    if tries < 6 && !Representable(after.year, after.month + tries, day) {
      LaterSearchSkip(after, day, tries + 1);
      var r := LaterSearch(after, day, Skip, tries + 1);
      if r.None? {
        forall m | after.month + tries <= m < after.month + 6
          ensures !Representable(after.year, m, day)
        {
          if m != after.month + tries {
            assert after.month + tries + 1 <= m;
          }
        }
      }
    }
  }

  /** Day 32 exists in no month, so with Skip the future-day branch yields nothing. */
  lemma SpecificDay32Skip(after: Instant)
    requires ValidInstant(after)
    ensures SpecificCandidates(after, 32, Skip) == []
  {
    LaterSearchSkip(after.date, 32, 0);
  }

  /** Days outside 1..32 give no candidates, whatever the policy. */
  lemma SpecificOutOfRange(after: Instant, day: int, handling: UnrepresentableDateHandling)
    requires ValidInstant(after)
    ensures SpecificCandidates(after, day, handling) == [] <==>
              day < 1 || day > 32 || (handling == Skip && day > after.date.day &&
                forall m :: after.date.month <= m < after.date.month + 6 ==> !Representable(after.date.year, m, day))
  {
    if handling == Skip && after.date.day < day <= 32 {
      LaterSearchSkip(after.date, day, 0);
    }
  }

  /**
   * Today's day: `after` itself, then day `day` counted from the first of the
   * next month, which runs into the month after that when the next month is
   * shorter than `day`.
   */
  lemma SpecificToday(after: Instant, handling: UnrepresentableDateHandling)
    requires ValidInstant(after)
    ensures var a := after.date;
            var next := FirstOfNextMonth(a);
            var spill := FirstOfNextMonth(next);
            var len := DaysInMonth(next.year, next.month);
            SpecificCandidates(after, a.day, handling)
              == [after, Midnight(if a.day <= len then Date(next.year, next.month, a.day)
                                  else Date(spill.year, spill.month, a.day - len))]
  {
    var a := after.date;
    var next := FirstOfNextMonth(a);
    assert SpecificCandidates(after, a.day, handling)
        == [after, Midnight(AddDays(AddMonths(FirstOfMonth(a), 1), a.day - 1))];
    NextMonthOfFirst(a);
    AddDaysFromFirst(next, a.day - 1);
  }

  /**
   * A day already passed this month: that day next month, clamped to the
   * next month's last day, under either policy.
   */
  lemma SpecificPassed(after: Instant, day: int, handling: UnrepresentableDateHandling)
    requires ValidInstant(after) && 1 <= day < after.date.day
    ensures var next := FirstOfNextMonth(after.date);
            var len := DaysInMonth(next.year, next.month);
            SpecificCandidates(after, day, handling)
              == [Midnight(Date(next.year, next.month, if day <= len then day else len))]
  {
    var a := after.date;
    MonthIndexInjective(AddMonths(Date(a.year, a.month, day), 1), FirstOfNextMonth(a));
  }

  /** A later day with LastDayOfMonth: that day this month, or this month's last day if it has none. */
  lemma SpecificLaterLastDay(after: Instant, day: int)
    requires ValidInstant(after) && after.date.day < day <= 32
    ensures var a := after.date;
            var len := DaysInMonth(a.year, a.month);
            SpecificCandidates(after, day, LastDayOfMonth)
              == [Midnight(Date(a.year, a.month, if day <= len then day else len))]
  {
  }

  /**
   * A later day with Skip: that day in the first month of the same year,
   * among this one and the five after it, that has it; nothing when none has.
   */
  lemma SpecificLaterSkip(after: Instant, day: int)
    requires ValidInstant(after) && after.date.day < day <= 32
    ensures var a := after.date;
            var r := SpecificCandidates(after, day, Skip);
            && (r == [] <==> forall m :: a.month <= m < a.month + 6 ==> !Representable(a.year, m, day))
            && (r != [] ==>
                  exists m ::
                    && a.month <= m < a.month + 6
                    && Representable(a.year, m, day)
                    && (forall m' :: a.month <= m' < m ==> !Representable(a.year, m', day))
                    && r == [Midnight(Date(a.year, m, day))])
  {
    LaterSearchSkip(after.date, day, 0);
    var s := LaterSearch(after.date, day, Skip, 0);
    if s.Some? {
      var m := s.value.month;
      assert SpecificCandidates(after, day, Skip) == [Midnight(Date(after.date.year, m, day))];
    }
  }

  /** VariableDate mode yields nothing exactly for n outside 1..5, otherwise one or two candidates. */
  lemma VariableCandidatesCount(after: Instant, handling: UnrepresentableDateHandling, n: int, dow: DayOfWeek)
    requires ValidInstant(after)
    ensures var r := VariableCandidates(after, handling, n, dow);
            && (r == [] <==> n < 1 || n > 5)
            && |r| <= 2
  {
    if 1 <= n <= 5 {
      NextMonthFound(after.date, handling, n, dow);
    }
  }

  /**
   * No nth `dow` this month: with LastDayOfMonth this month's last day, then
   * the next-month date too when that last day is today; with Skip only the
   * next-month date, which lies in a later month.
   */
  lemma VariableMissing(after: Instant, handling: UnrepresentableDateHandling, n: int, dow: DayOfWeek)
    requires ValidInstant(after) && 1 <= n <= 5
    requires VariableDateOfMonth(after.date, n, dow) == -1
    ensures var a := after.date;
            var len := DaysInMonth(a.year, a.month);
            var next := NextMonthWithValidVariableDate(a, handling, n, dow);
            && next.Some?
            && MonthIndex(next.value) > MonthIndex(a)
            && VariableCandidates(after, handling, n, dow)
                 == if handling == LastDayOfMonth then
                      [Midnight(Date(a.year, a.month, len))] + (if len == a.day then [Midnight(next.value)] else [])
                    else [Midnight(next.value)]
  {
    NextMonthFound(after.date, handling, n, dow);
  }

  /** Today is the nth `dow`: `after` itself, then the next-month date, in a later month. */
  lemma VariableToday(after: Instant, handling: UnrepresentableDateHandling, n: int, dow: DayOfWeek)
    requires ValidInstant(after) && 1 <= n <= 5
    requires VariableDateOfMonth(after.date, n, dow) == after.date.day
    ensures var next := NextMonthWithValidVariableDate(after.date, handling, n, dow);
            && next.Some?
            && MonthIndex(next.value) > MonthIndex(after.date)
            && VariableCandidates(after, handling, n, dow) == [after, Midnight(next.value)]
  {
    NextMonthFound(after.date, handling, n, dow);
  }

  /** The nth `dow` is later this month: midnight of that day only, which is a `dow`. */
  lemma VariableLater(after: Instant, handling: UnrepresentableDateHandling, n: int, dow: DayOfWeek)
    requires ValidInstant(after) && 1 <= n <= 5
    requires VariableDateOfMonth(after.date, n, dow) > after.date.day
    ensures var a := after.date;
            var d := Date(a.year, a.month, VariableDateOfMonth(a, n, dow));
            && ValidDate(d)
            && DayOfWeekOf(d) == dow
            && VariableCandidates(after, handling, n, dow) == [Midnight(d)]
  {
    VariableDateOfMonthIsNthWeekday(after.date, n, dow);
  }

  /** The nth `dow` of this month has passed: only the next-month date, in a later month. */
  lemma VariablePassed(after: Instant, handling: UnrepresentableDateHandling, n: int, dow: DayOfWeek)
    requires ValidInstant(after) && 1 <= n <= 5
    requires VariableDateOfMonth(after.date, n, dow) != -1
    requires VariableDateOfMonth(after.date, n, dow) < after.date.day
    ensures var next := NextMonthWithValidVariableDate(after.date, handling, n, dow);
            && next.Some?
            && MonthIndex(next.value) > MonthIndex(after.date)
            && VariableCandidates(after, handling, n, dow) == [Midnight(next.value)]
  {
    NextMonthFound(after.date, handling, n, dow);
  }

  /** No candidate is invalid or falls on a day before `after`'s day. */
  lemma NextDayOfMonthNotBefore(after: Instant, dayOfMonth: int, handling: UnrepresentableDateHandling,
                                triggerType: DayOfMonthTriggerType, nthWeekday: int, dayOfWeek: DayOfWeek)
    requires ValidInstant(after)
    ensures var r := NextDayOfMonth(after, dayOfMonth, handling, triggerType, nthWeekday, dayOfWeek);
            forall i :: 0 <= i < |r| ==> ValidInstant(r[i]) && !DateBefore(r[i].date, after.date)
  {
    if triggerType == VariableDate {
      VariableNotBefore(after, handling, nthWeekday, dayOfWeek);
    } else {
      SpecificNotBefore(after, dayOfMonth, handling);
    }
  }

  lemma VariableNotBefore(after: Instant, handling: UnrepresentableDateHandling, n: int, dow: DayOfWeek)
    requires ValidInstant(after)
    ensures var r := VariableCandidates(after, handling, n, dow);
            forall i :: 0 <= i < |r| ==> ValidInstant(r[i]) && !DateBefore(r[i].date, after.date)
  {
    if 1 <= n <= 5 {
      var a := after.date;
      NextMonthFound(a, handling, n, dow);
      var next := NextMonthWithValidVariableDate(a, handling, n, dow).value;
      MonthIndexOrder(a, next);
      var v := VariableDateOfMonth(a, n, dow);
      if v == -1 {
        VariableMissing(after, handling, n, dow);
      } else if v == a.day {
        VariableToday(after, handling, n, dow);
      } else if v > a.day {
        VariableLater(after, handling, n, dow);
      } else {
        VariablePassed(after, handling, n, dow);
      }
    }
  }

  lemma SpecificNotBefore(after: Instant, day: int, handling: UnrepresentableDateHandling)
    requires ValidInstant(after)
    ensures var r := SpecificCandidates(after, day, handling);
            forall i :: 0 <= i < |r| ==> ValidInstant(r[i]) && !DateBefore(r[i].date, after.date)
  {
    var a := after.date;
    if 1 <= day <= 32 {
      if day == a.day {
        SpecificToday(after, handling);
        var next := FirstOfNextMonth(a);
        var spill := FirstOfNextMonth(next);
        MonthIndexOrder(a, next);
        MonthIndexOrder(a, spill);
        DayNumberOrder(a, next);
        DayNumberOrder(a, spill);
      } else if day < a.day {
        SpecificPassed(after, day, handling);
        var next := FirstOfNextMonth(a);
        MonthIndexOrder(a, next);
        DayNumberOrder(a, next);
      } else if handling == Skip {
        LaterSearchSkip(a, day, 0);
      }
    }
  }
}
