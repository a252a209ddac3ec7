/**
 * Concrete values the trigger's own test data expects, established for the
 * model (all at a zero offset).
 */
module KnownValues {
  import opened Wrappers
  import opened Calendar
  import opened TriggerTypes
  import opened VariableDates
  import opened Resolver

  lemma FirstOfJanuary2025()
    ensures DayOfWeekOf(Date(2025, 1, 1)) == Wednesday
  {
  }

  lemma FirstOfFebruary2025()
    ensures DayOfWeekOf(Date(2025, 2, 1)) == Saturday
  {
  }

  lemma FirstOfMarch2025()
    ensures DayOfWeekOf(Date(2025, 3, 1)) == Saturday
  {
  }

  lemma FirstOfApril2025()
    ensures DayOfWeekOf(Date(2025, 4, 1)) == Tuesday
  {
  }

  lemma FirstOfDecember2025()
    ensures DayOfWeekOf(Date(2025, 12, 1)) == Monday
  {
  }

  lemma FirstOfFebruary2028()
    ensures DayOfWeekOf(Date(2028, 2, 1)) == Tuesday
  {
  }

  lemma FirstOfMarch2028()
    ensures DayOfWeekOf(Date(2028, 3, 1)) == Wednesday
  {
  }

  // The rows of the trigger's test data for GetVariableDateOfMonth, and the
  // months the next-month search passes through, each asked from any date of
  // the month.

  /** A position below 1 is never a date. */
  lemma NoMinusFirstWednesdayInFebruary2025(day: int)
    requires Representable(2025, 2, day)
    ensures VariableDateOfMonth(Date(2025, 2, day), -1, Wednesday) == -1
    ensures VariableDateOfMonthAsWritten(Date(2025, 2, day), -1, Wednesday) == -1
  {
    FirstOfFebruary2025();
    assert DayNumber(Date(2025, 1, 22)) == DayNumber(Date(2025, 2, 5)) - 14;
    VariableDateOfMonthByTarget(Date(2025, 2, day), -1, Wednesday, Date(2025, 1, 22));
  }

  /** Nor is one above 5. */
  lemma NoSixthThursdayInFebruary2025(day: int)
    requires Representable(2025, 2, day)
    ensures VariableDateOfMonth(Date(2025, 2, day), 6, Thursday) == -1
    ensures VariableDateOfMonthAsWritten(Date(2025, 2, day), 6, Thursday) == -1
  {
    FirstOfFebruary2025();
    assert DayNumber(Date(2025, 3, 13)) == DayNumber(Date(2025, 2, 6)) + 35;
    VariableDateOfMonthByTarget(Date(2025, 2, day), 6, Thursday, Date(2025, 3, 13));
  }

  lemma FirstFridayOfJanuary2025(day: int)
    requires Representable(2025, 1, day)
    ensures VariableDateOfMonth(Date(2025, 1, day), 1, Friday) == 3
  {
    FirstOfJanuary2025();
  }

  lemma FirstWednesdayOfJanuary2025(day: int)
    requires Representable(2025, 1, day)
    ensures VariableDateOfMonth(Date(2025, 1, day), 1, Wednesday) == 1
  {
    FirstOfJanuary2025();
  }

  lemma SecondThursdayOfJanuary2025(day: int)
    requires Representable(2025, 1, day)
    ensures VariableDateOfMonth(Date(2025, 1, day), 2, Thursday) == 9
  {
    FirstOfJanuary2025();
  }

  lemma SecondWednesdayOfJanuary2025(day: int)
    requires Representable(2025, 1, day)
    ensures VariableDateOfMonth(Date(2025, 1, day), 2, Wednesday) == 8
  {
    FirstOfJanuary2025();
  }

  lemma FirstTuesdayOfJanuary2025(day: int)
    requires Representable(2025, 1, day)
    ensures VariableDateOfMonth(Date(2025, 1, day), 1, Tuesday) == 7
  {
    FirstOfJanuary2025();
    assert FirstOccurrence(2025, 1, Tuesday) == 7;
  }

  lemma FourthMondayOfJanuary2025(day: int)
    requires Representable(2025, 1, day)
    ensures VariableDateOfMonth(Date(2025, 1, day), 4, Monday) == 27
  {
    FirstOfJanuary2025();
  }

  lemma FifthWednesdayOfJanuary2025(day: int)
    requires Representable(2025, 1, day)
    ensures VariableDateOfMonth(Date(2025, 1, day), 5, Wednesday) == 29
  {
    FirstOfJanuary2025();
  }

  lemma FifthFridayOfJanuary2025(day: int)
    requires Representable(2025, 1, day)
    ensures VariableDateOfMonth(Date(2025, 1, day), 5, Friday) == 31
  {
    FirstOfJanuary2025();
  }

  lemma NoFifthSaturdayInJanuary2025(day: int)
    requires Representable(2025, 1, day)
    ensures VariableDateOfMonth(Date(2025, 1, day), 5, Saturday) == -1
  {
    FirstOfJanuary2025();
  }

  lemma NoFifthMondayInJanuary2025(day: int)
    requires Representable(2025, 1, day)
    ensures VariableDateOfMonth(Date(2025, 1, day), 5, Monday) == -1
  {
    FirstOfJanuary2025();
  }

  lemma FirstSaturdayOfFebruary2025(day: int)
    requires Representable(2025, 2, day)
    ensures VariableDateOfMonth(Date(2025, 2, day), 1, Saturday) == 1
  {
    FirstOfFebruary2025();
  }

  lemma FirstSundayOfFebruary2025(day: int)
    requires Representable(2025, 2, day)
    ensures VariableDateOfMonth(Date(2025, 2, day), 1, Sunday) == 2
  {
    FirstOfFebruary2025();
  }

  lemma SecondSundayOfFebruary2025(day: int)
    requires Representable(2025, 2, day)
    ensures VariableDateOfMonth(Date(2025, 2, day), 2, Sunday) == 9
  {
    FirstOfFebruary2025();
  }

  lemma ThirdSundayOfFebruary2025(day: int)
    requires Representable(2025, 2, day)
    ensures VariableDateOfMonth(Date(2025, 2, day), 3, Sunday) == 16
  {
    FirstOfFebruary2025();
  }

  lemma FourthSundayOfFebruary2025(day: int)
    requires Representable(2025, 2, day)
    ensures VariableDateOfMonth(Date(2025, 2, day), 4, Sunday) == 23
  {
    FirstOfFebruary2025();
  }

  lemma FourthFridayOfFebruary2025(day: int)
    requires Representable(2025, 2, day)
    ensures VariableDateOfMonth(Date(2025, 2, day), 4, Friday) == 28
  {
    FirstOfFebruary2025();
  }

  lemma FourthSaturdayOfFebruary2025(day: int)
    requires Representable(2025, 2, day)
    ensures VariableDateOfMonth(Date(2025, 2, day), 4, Saturday) == 22
  {
    FirstOfFebruary2025();
  }

  lemma NoFifthSaturdayInFebruary2025(day: int)
    requires Representable(2025, 2, day)
    ensures VariableDateOfMonth(Date(2025, 2, day), 5, Saturday) == -1
  {
    FirstOfFebruary2025();
  }

  lemma NoFifthWednesdayInFebruary2025(day: int)
    requires Representable(2025, 2, day)
    ensures VariableDateOfMonth(Date(2025, 2, day), 5, Wednesday) == -1
  {
    FirstOfFebruary2025();
  }

  lemma FifthSaturdayOfMarch2025(day: int)
    requires Representable(2025, 3, day)
    ensures VariableDateOfMonth(Date(2025, 3, day), 5, Saturday) == 29
  {
    FirstOfMarch2025();
  }

  lemma NoFifthWednesdayInMarch2025(day: int)
    requires Representable(2025, 3, day)
    ensures VariableDateOfMonth(Date(2025, 3, day), 5, Wednesday) == -1
  {
    FirstOfMarch2025();
  }

  lemma FifthWednesdayOfApril2025(day: int)
    requires Representable(2025, 4, day)
    ensures VariableDateOfMonth(Date(2025, 4, day), 5, Wednesday) == 30
  {
    FirstOfApril2025();
  }

  lemma FourthMondayOfFebruary2028(day: int)
    requires Representable(2028, 2, day)
    ensures VariableDateOfMonth(Date(2028, 2, day), 4, Monday) == 28
  {
    FirstOfFebruary2028();
  }

  lemma FifthTuesdayOfFebruary2028(day: int)
    requires Representable(2028, 2, day)
    ensures VariableDateOfMonth(Date(2028, 2, day), 5, Tuesday) == 29
  {
    FirstOfFebruary2028();
  }

  lemma NoFifthWednesdayInFebruary2028(day: int)
    requires Representable(2028, 2, day)
    ensures VariableDateOfMonth(Date(2028, 2, day), 5, Wednesday) == -1
  {
    FirstOfFebruary2028();
  }

  lemma FifthWednesdayOfMarch2028(day: int)
    requires Representable(2028, 3, day)
    ensures VariableDateOfMonth(Date(2028, 3, day), 5, Wednesday) == 29
  {
    FirstOfMarch2028();
  }

  lemma FifthWednesdayOfDecember2025(day: int)
    requires Representable(2025, 12, day)
    ensures VariableDateOfMonth(Date(2025, 12, day), 5, Wednesday) == 31
  {
    FirstOfDecember2025();
  }

  lemma NoFifthThursdayInDecember2025(day: int)
    requires Representable(2025, 12, day)
    ensures VariableDateOfMonth(Date(2025, 12, day), 5, Thursday) == -1
  {
    FirstOfDecember2025();
  }

  /** AddMonths from a date in January, one to three months on. */
  lemma MonthsOnFromJanuary(y: int, day: int)
    requires Representable(y, 1, day)
    ensures AddMonths(Date(y, 1, day), 1) == Date(y, 2, AddMonths(Date(y, 1, day), 1).day)
    ensures AddMonths(Date(y, 1, day), 2) == Date(y, 3, day)
    ensures AddMonths(Date(y, 1, day), 3) == Date(y, 4, AddMonths(Date(y, 1, day), 3).day)
  {
  }

  /**
   * The next month with an nth weekday, searched from any date in January:
   * the search looks at whole months, so the day of `after` plays no part.
   */
  lemma NextFirstSaturdaySkip(day: int)
    requires Representable(2025, 1, day)
    ensures NextMonthWithValidVariableDate(Date(2025, 1, day), Skip, 1, Saturday) == Some(Date(2025, 2, 1))
  {
    var after := Date(2025, 1, day);
    MonthsOnFromJanuary(2025, day);
    FirstSaturdayOfFebruary2025(AddMonths(after, 1).day);
    SearchMonthsRound(MonthResolver(1, Saturday), after, Skip, 0);
  }

  lemma NextFirstSundaySkip(day: int)
    requires Representable(2025, 1, day)
    ensures NextMonthWithValidVariableDate(Date(2025, 1, day), Skip, 1, Sunday) == Some(Date(2025, 2, 2))
  {
    var after := Date(2025, 1, day);
    MonthsOnFromJanuary(2025, day);
    FirstSundayOfFebruary2025(AddMonths(after, 1).day);
    SearchMonthsRound(MonthResolver(1, Sunday), after, Skip, 0);
  }

  lemma NextSecondSundaySkip(day: int)
    requires Representable(2025, 1, day)
    ensures NextMonthWithValidVariableDate(Date(2025, 1, day), Skip, 2, Sunday) == Some(Date(2025, 2, 9))
  {
    var after := Date(2025, 1, day);
    MonthsOnFromJanuary(2025, day);
    SecondSundayOfFebruary2025(AddMonths(after, 1).day);
    SearchMonthsRound(MonthResolver(2, Sunday), after, Skip, 0);
  }

  lemma NextThirdSundaySkip(day: int)
    requires Representable(2025, 1, day)
    ensures NextMonthWithValidVariableDate(Date(2025, 1, day), Skip, 3, Sunday) == Some(Date(2025, 2, 16))
  {
    var after := Date(2025, 1, day);
    MonthsOnFromJanuary(2025, day);
    ThirdSundayOfFebruary2025(AddMonths(after, 1).day);
    SearchMonthsRound(MonthResolver(3, Sunday), after, Skip, 0);
  }

  lemma NextFourthSundaySkip(day: int)
    requires Representable(2025, 1, day)
    ensures NextMonthWithValidVariableDate(Date(2025, 1, day), Skip, 4, Sunday) == Some(Date(2025, 2, 23))
  {
    var after := Date(2025, 1, day);
    MonthsOnFromJanuary(2025, day);
    FourthSundayOfFebruary2025(AddMonths(after, 1).day);
    SearchMonthsRound(MonthResolver(4, Sunday), after, Skip, 0);
  }

  lemma NextFourthFridaySkip(day: int)
    requires Representable(2025, 1, day)
    ensures NextMonthWithValidVariableDate(Date(2025, 1, day), Skip, 4, Friday) == Some(Date(2025, 2, 28))
  {
    var after := Date(2025, 1, day);
    MonthsOnFromJanuary(2025, day);
    FourthFridayOfFebruary2025(AddMonths(after, 1).day);
    SearchMonthsRound(MonthResolver(4, Friday), after, Skip, 0);
  }

  /** No fifth Saturday in February 2025, so Skip goes on to the 29th of March. */
  lemma NextFifthSaturdaySkip(day: int)
    requires Representable(2025, 1, day)
    ensures NextMonthWithValidVariableDate(Date(2025, 1, day), Skip, 5, Saturday) == Some(Date(2025, 3, 29))
  {
    var after := Date(2025, 1, day);
    MonthsOnFromJanuary(2025, day);
    NoFifthSaturdayInFebruary2025(AddMonths(after, 1).day);
    FifthSaturdayOfMarch2025(AddMonths(after, 2).day);
    SearchMonthsRound(MonthResolver(5, Saturday), after, Skip, 0);
    SearchMonthsRound(MonthResolver(5, Saturday), after, Skip, 1);
  }

  /** No fifth Wednesday in February or March 2025: Skip reaches the 30th of April. */
  lemma NextFifthWednesdaySkip(day: int)
    requires Representable(2025, 1, day)
    ensures NextMonthWithValidVariableDate(Date(2025, 1, day), Skip, 5, Wednesday) == Some(Date(2025, 4, 30))
  {
    var after := Date(2025, 1, day);
    MonthsOnFromJanuary(2025, day);
    NoFifthWednesdayInFebruary2025(AddMonths(after, 1).day);
    NoFifthWednesdayInMarch2025(AddMonths(after, 2).day);
    FifthWednesdayOfApril2025(AddMonths(after, 3).day);
    SearchMonthsRound(MonthResolver(5, Wednesday), after, Skip, 0);
    SearchMonthsRound(MonthResolver(5, Wednesday), after, Skip, 1);
    SearchMonthsRound(MonthResolver(5, Wednesday), after, Skip, 2);
  }

  /** LastDayOfMonth instead stops at the end of February. */
  lemma NextFifthSaturdayLastDay(day: int)
    requires Representable(2025, 1, day)
    ensures NextMonthWithValidVariableDate(Date(2025, 1, day), LastDayOfMonth, 5, Saturday) == Some(Date(2025, 2, 28))
  {
    var after := Date(2025, 1, day);
    MonthsOnFromJanuary(2025, day);
    NoFifthSaturdayInFebruary2025(AddMonths(after, 1).day);
    SearchMonthsRound(MonthResolver(5, Saturday), after, LastDayOfMonth, 0);
  }

  /** Leap year: February 2028 has a fifth Tuesday. */
  lemma NextFifthTuesdaySkip2028(day: int)
    requires Representable(2028, 1, day)
    ensures NextMonthWithValidVariableDate(Date(2028, 1, day), Skip, 5, Tuesday) == Some(Date(2028, 2, 29))
  {
    var after := Date(2028, 1, day);
    MonthsOnFromJanuary(2028, day);
    FifthTuesdayOfFebruary2028(AddMonths(after, 1).day);
    SearchMonthsRound(MonthResolver(5, Tuesday), after, Skip, 0);
  }

  /** But no fifth Wednesday, so Skip moves on to March 2028. */
  lemma NextFifthWednesdaySkip2028(day: int)
    requires Representable(2028, 1, day)
    ensures NextMonthWithValidVariableDate(Date(2028, 1, day), Skip, 5, Wednesday) == Some(Date(2028, 3, 29))
  {
    var after := Date(2028, 1, day);
    MonthsOnFromJanuary(2028, day);
    NoFifthWednesdayInFebruary2028(AddMonths(after, 1).day);
    FifthWednesdayOfMarch2028(AddMonths(after, 2).day);
    SearchMonthsRound(MonthResolver(5, Wednesday), after, Skip, 0);
    SearchMonthsRound(MonthResolver(5, Wednesday), after, Skip, 1);
  }

  /** Wednesday 17 March 2021, the 17th: today, and the 17th of next month. */
  lemma SpecificTodayExample()
    ensures SpecificCandidates(Midnight(Date(2021, 3, 17)), 17, Skip)
         == [Midnight(Date(2021, 3, 17)), Midnight(Date(2021, 4, 17))]
  {
    SpecificToday(Midnight(Date(2021, 3, 17)), Skip);
  }

  lemma SpecificTomorrowExample()
    ensures SpecificCandidates(Midnight(Date(2021, 3, 17)), 18, Skip) == [Midnight(Date(2021, 3, 18))]
  {
  }

  lemma SpecificYesterdayExample()
    ensures SpecificCandidates(Midnight(Date(2021, 3, 17)), 16, Skip) == [Midnight(Date(2021, 4, 16))]
  {
  }

  lemma SpecificInvalidDayExamples()
    ensures SpecificCandidates(Midnight(Date(2021, 3, 17)), -1, Skip) == []
    ensures SpecificCandidates(Midnight(Date(2021, 3, 17)), 45, Skip) == []
  {
  }

  /** The 30th from 17 February 2021: Skip moves to the 30th of March. */
  lemma SpecificThirtiethSkip()
    ensures SpecificCandidates(Midnight(Date(2021, 2, 17)), 30, Skip) == [Midnight(Date(2021, 3, 30))]
  {
    assert LaterSearch(Date(2021, 2, 17), 30, Skip, 1) == Some(Date(2021, 3, 30));
  }

  /** LastDayOfMonth stays in February: the 28th, or the 29th in a leap year. */
  lemma SpecificThirtiethLastDay()
    ensures SpecificCandidates(Midnight(Date(2021, 2, 17)), 30, LastDayOfMonth) == [Midnight(Date(2021, 2, 28))]
    ensures SpecificCandidates(Midnight(Date(2024, 2, 17)), 30, LastDayOfMonth) == [Midnight(Date(2024, 2, 29))]
  {
    assert LastDateOfMonth(2021, 2) == Date(2021, 2, 28);
    assert LastDateOfMonth(2024, 2) == Date(2024, 2, 29);
  }
}
