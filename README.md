# DayOfMonthTrigger, modelled in Dafny

A model of the monthly schedule trigger `DayOfMonthTrigger` from the M-Files
VAF Extensions library, with proofs about it. The trigger fires on chosen days
of the month at chosen times of day. It works in one of two modes:

- **SpecificDate**: numbered days such as the 1st, the 15th or the 31st.
- **VariableDate**: the nth weekday of the month, such as the 2nd Tuesday.

A day that a month does not have is handled by the `UnrepresentableDateHandling`
policy:

- **Skip**: try the next month.
- **LastDayOfMonth**: use this month's last day instead.

The model has eight modules:

| file | module | contents |
|---|---|---|
| `wrappers.dfy` | `Wrappers` | `Option`. |
| `trigger_types.dfy` | `TriggerTypes` | The two enums, `UnrepresentableDateHandling` and `DayOfMonthTriggerType`. |
| `calendar.dfy` | `Calendar` | The parts of .NET `DateTime`/`DateTimeOffset` the trigger relies on, listed below. |
| `variable_dates.dfy` | `VariableDates` | `GetVariableDateOfMonth` and `GetNextMonthWithValidVariableDate`. Each is a method with the source's loop, proved equal to a specification function, and the lemmas about them. |
| `resolver.dfy` | `Resolver` | The `GetNextDayOfMonth` iterator, as the sequence of candidates it yields. Its future-day loop is a method. |
| `scheduler.dfy` | `Scheduler` | `GetNextExecution`. |
| `trigger_text.dfy` | `TriggerText` | The list formatting of `ToString`: sorting, number and `TimeSpan` rendering, and joining. Each has a read-back function and a round-trip proof. |
| `known_values.dfy` | `KnownValues` | The expected values of the trigger's unit tests, proved for the model. |

`Calendar` covers:

- the proleptic Gregorian calendar;
- `DayOfWeek`;
- `AddDays`, proved exact on day numbers;
- `AddMonths`, which clamps the day to the target month's length;
- representability of `new DateTimeOffset(y, m, d, …)`;
- instants: a date plus ticks since midnight, at one fixed offset, ordered by their tick counts.

## Model

Source paths are relative to the repository root. `DayOfMonthTrigger.cs` is
`MFiles.VAF.Extensions/Configuration/ScheduledExecution/DayOfMonthTrigger.cs`.

| member | source | states |
|---|---|---|
| Calendar.DaysInMonth | MFiles.VAF.Extensions/Configuration/ScheduledExecution/DayOfMonthTrigger.cs:256 | A month has 28 to 31 days. February has 29 exactly in leap years, and every other month has at least 30. |
| Calendar.AddDays | MFiles.VAF.Extensions/Configuration/ScheduledExecution/DayOfMonthTrigger.cs:307 | `AddDays(k)` yields a valid date whose day number is exactly k more than the start's, for negative k too. |
| Calendar.AddDaysSameMonth | MFiles.VAF.Extensions/Configuration/ScheduledExecution/DayOfMonthTrigger.cs:362 | Adding days stays in the month exactly when the day count stays within it; the day is then d + k. |
| Calendar.AddDaysIntoNextMonth | MFiles.VAF.Extensions/Configuration/ScheduledExecution/DayOfMonthTrigger.cs:310 | A step that overruns the month by at most 28 days lands in the next month, on day d + k − length. |
| Calendar.AddDaysFromFirst | MFiles.VAF.Extensions/Configuration/ScheduledExecution/DayOfMonthTrigger.cs:233-235 | Up to 30 days on from a 1st is day k + 1 of the same month, or day k + 1 − length of the next month when that overruns. |
| Calendar.WeekdayAfter | MFiles.VAF.Extensions/Configuration/ScheduledExecution/DayOfMonthTrigger.cs:305-308 | The weekday of `AddDays(d, k)` is d's weekday advanced by k, modulo 7. |
| Calendar.AddMonths | MFiles.VAF.Extensions/Configuration/ScheduledExecution/DayOfMonthTrigger.cs:241-242 | `AddMonths(k)` moves exactly k months on. It keeps the day when the target month has it, and clamps it to the target month's last day otherwise. |
| Calendar.NextMonthOfFirst | MFiles.VAF.Extensions/Configuration/ScheduledExecution/DayOfMonthTrigger.cs:233-234 | One month on from the first of a month is the first of the next month. |
| Calendar.LastDateOfMonth | MFiles.VAF.Extensions/Configuration/ScheduledExecution/DayOfMonthTrigger.cs:185-187 | The first of the month, plus one month, minus one day, is that month's last day. |
| Calendar.DayNumberOrder | MFiles.VAF.Extensions/Configuration/ScheduledExecution/DayOfMonthTrigger.cs:140 | Chronological order of dates is the order of their day numbers, and equal day numbers mean equal dates. |
| Calendar.DayOfWeekOf | MFiles.VAF.Extensions/Configuration/ScheduledExecution/DayOfMonthTrigger.cs:305 | `DateTime.DayOfWeek` from the day count since 0001-01-01, a Monday. Its properties are stated by `WeekdayAfter`. |
| Calendar.TicksOrder | MFiles.VAF.Extensions/Configuration/ScheduledExecution/DayOfMonthTrigger.cs:140-142 | Instants compare by date first, then by time of day. Equal tick counts mean the same instant. |
| VariableDates.FirstOccurrenceIsFirst | MFiles.VAF.Extensions/Configuration/ScheduledExecution/DayOfMonthTrigger.cs:303-308 | Stepping from the 1st stops on a day in 1..7 that has the wanted weekday, and no earlier day has it. |
| VariableDates.VariableDateOfMonthAsWritten | MFiles.VAF.Extensions/Configuration/ScheduledExecution/DayOfMonthTrigger.cs:296-320 | GetVariableDateOfMonth as written, with the month-only test at line 312. What it returns is stated by `AsWrittenAgreesInRange` and `AsWrittenFindsDayInNextYear`. |
| VariableDates.VariableDateOfMonth | MFiles.VAF.Extensions/Configuration/ScheduledExecution/DayOfMonthTrigger.cs:296-320 | Corrected GetVariableDateOfMonth: -1 or a day the month has. `VariableDateOfMonthIsNthWeekday` states that it is the nth weekday. |
| VariableDates.VariableDateOfMonthIsNthWeekday | MFiles.VAF.Extensions/Configuration/ScheduledExecution/DayOfMonthTrigger.cs:303-319 | The result is -1 exactly when the day 7·(n−1) after the first wanted weekday is outside the month. Otherwise it is that day, and it falls on the wanted weekday. |
| VariableDates.VariableDateOfMonthRange | MFiles.VAF.Extensions/Configuration/ScheduledExecution/DayOfMonthTrigger.cs:296-320 | n ≤ 0 or n ≥ 6 always gives -1; n in 1..4 never does. |
| VariableDates.GetVariableDateOfMonth | MFiles.VAF.Extensions/Configuration/ScheduledExecution/DayOfMonthTrigger.cs:296-320 | The source's stepping loop, with the final test comparing year and month (see Findings), returns the specification's nth weekday. |
| VariableDates.TargetWithinNextMonth | MFiles.VAF.Extensions/Configuration/ScheduledExecution/DayOfMonthTrigger.cs:310 | For n in 1..5 the stepped-to date lies in this month or the next one, never further. |
| VariableDates.AsWrittenAgreesInRange | MFiles.VAF.Extensions/Configuration/ScheduledExecution/DayOfMonthTrigger.cs:312-319 | For n in 1..5, which is all the trigger passes, the month-only test gives the same answer as the corrected test. |
| VariableDates.AsWrittenFindsDayInNextYear | MFiles.VAF.Extensions/Configuration/ScheduledExecution/DayOfMonthTrigger.cs:312-315 | With n = 54, Wednesday and January 2025, the month-only test answers 7 (7 January 2026). The corrected test answers -1. |
| VariableDates.SearchMonthsRound | MFiles.VAF.Extensions/Configuration/ScheduledExecution/DayOfMonthTrigger.cs:338-369 | One round of the search: when the test gives a day, the 1st of the month examined moved on by that day − 1 days (`RunDate`); failing that, under LastDayOfMonth that month's last day; otherwise the rest of the search. |
| VariableDates.RunDate | MFiles.VAF.Extensions/Configuration/ScheduledExecution/DayOfMonthTrigger.cs:361-362 | The date built from a month and a found day is valid and lies day − 1 days after the month's 1st; when the month has that day it is exactly that day of the month. |
| VariableDates.SearchMonths | MFiles.VAF.Extensions/Configuration/ScheduledExecution/DayOfMonthTrigger.cs:335-372 | The search after `tried` fruitless rounds: whatever the test answers, a result is a valid date. |
| VariableDates.SearchMonthsWithin | MFiles.VAF.Extensions/Configuration/ScheduledExecution/DayOfMonthTrigger.cs:335-372 | When the test only ever answers -1 or a day its month has (`InMonth`), a result of the search after `tried` rounds lies in one of months tried + 1 .. 13 after `after`. |
| VariableDates.NextMonthWithValidVariableDate | MFiles.VAF.Extensions/Configuration/ScheduledExecution/DayOfMonthTrigger.cs:329-373 | The search from its first round, with the corrected test; `NextMonthSkip`, `NextMonthSkipFirst`, `NextMonthLastDayOfMonth` and `NextMonthOutOfRange` state what it returns. |
| VariableDates.NextMonthWithValidVariableDateAsWritten | MFiles.VAF.Extensions/Configuration/ScheduledExecution/DayOfMonthTrigger.cs:329-373 | The search with the month-only test the source calls at line 339; related to the corrected search by the two lemmas below. |
| VariableDates.AsWrittenSearchAgreesInRange | MFiles.VAF.Extensions/Configuration/ScheduledExecution/DayOfMonthTrigger.cs:339 | For n in 1..5, the only n the trigger passes, the search as written returns what the corrected search returns, for every start date and policy. |
| VariableDates.AsWrittenSearchFindsDayInNextYear | MFiles.VAF.Extensions/Configuration/ScheduledExecution/DayOfMonthTrigger.cs:339-372 | From 13 December 2024 under Skip with n = 54 and Wednesday, the search as written returns 7 January 2025 and `.Value` does not throw. The corrected search finds nothing. |
| VariableDates.AsWrittenFindsLeapDay | MFiles.VAF.Extensions/Configuration/ScheduledExecution/DayOfMonthTrigger.cs:312-315 | With n = 161, Tuesday and February 2025, the month-only test answers 29 (29 February 2028), a day February 2025 does not have. The corrected test answers -1. |
| VariableDates.AsWrittenSearchRollsIntoMarch | MFiles.VAF.Extensions/Configuration/ScheduledExecution/DayOfMonthTrigger.cs:339-362 | From 15 January 2025 under Skip with n = 161 and Tuesday, the search as written takes February's answer 29 and returns the 1st of February moved on by 28 days, 1 March 2025. The corrected search finds nothing. |
| VariableDates.GetNextMonthWithValidVariableDate | MFiles.VAF.Extensions/Configuration/ScheduledExecution/DayOfMonthTrigger.cs:329-373 | The source's 13-round loop, calling the corrected year-and-month test, returns what the bounded search `NextMonthWithValidVariableDate` returns. A found day is turned into a date as the source does, from the month's 1st. `None` is where the search over the corrected test finds nothing in 13 months; for n in 1..5 that never happens, and the result equals the search over the month-only test (`AsWrittenSearchAgreesInRange`). For other n the source's search can return a date where this gives `None` (`AsWrittenSearchFindsDayInNextYear`). |
| VariableDates.NextMonthSkip | MFiles.VAF.Extensions/Configuration/ScheduledExecution/DayOfMonthTrigger.cs:335-370 | Under Skip with n in 1..5 the search always succeeds, within four months of `after`. The result is the nth weekday of the first later month that has one. |
| VariableDates.NextMonthSkipFirst | MFiles.VAF.Extensions/Configuration/ScheduledExecution/DayOfMonthTrigger.cs:341-356 | Under Skip, no month between `after` and the result has the nth weekday. |
| VariableDates.PatternWithinFourMonths | MFiles.VAF.Extensions/Configuration/ScheduledExecution/DayOfMonthTrigger.cs:335 | For n in 1..5 one of the four months after any date has the nth weekday. This bounds the "within a year" claim. |
| VariableDates.NextMonthLastDayOfMonth | MFiles.VAF.Extensions/Configuration/ScheduledExecution/DayOfMonthTrigger.cs:341-350 | Under LastDayOfMonth the result is always in the month right after `after`: the pattern day there, or else that month's last day. |
| VariableDates.NextMonthOutOfRange | MFiles.VAF.Extensions/Configuration/ScheduledExecution/DayOfMonthTrigger.cs:371-372 | Under Skip with n outside 1..5 the search over the corrected test finds nothing. The source's month-only test can still find a date here (`AsWrittenSearchFindsDayInNextYear`); the trigger itself never passes such n. |
| Resolver.NextMonthFound | MFiles.VAF.Extensions/Configuration/ScheduledExecution/DayOfMonthTrigger.cs:179 | For n in 1..5 and either policy, the next-month search returns a valid date in one of the 13 months after `after`, never `after`'s own month. |
| Resolver.LaterSearch | MFiles.VAF.Extensions/Configuration/ScheduledExecution/DayOfMonthTrigger.cs:247-283 | The future-day search as a function; `LaterSearchSkip` and `SpecificLaterLastDay` state its result. |
| Resolver.SpecificCandidates | MFiles.VAF.Extensions/Configuration/ScheduledExecution/DayOfMonthTrigger.cs:219-285 | The SpecificDate candidates in yield order; stated by `SpecificOutOfRange`, `SpecificToday`, `SpecificPassed`, `SpecificLaterLastDay` and `SpecificLaterSkip`. |
| Resolver.VariableCandidates | MFiles.VAF.Extensions/Configuration/ScheduledExecution/DayOfMonthTrigger.cs:168-218 | The VariableDate candidates in yield order; stated by `VariableCandidatesCount`, `VariableMissing`, `VariableToday`, `VariableLater` and `VariablePassed`. |
| Resolver.NextDayOfMonth | MFiles.VAF.Extensions/Configuration/ScheduledExecution/DayOfMonthTrigger.cs:158-287 | GetNextDayOfMonth: dispatches on the trigger type; `NextDayOfMonthNotBefore` states that every candidate is valid and not before the reference day. |
| Resolver.FindLaterDay | MFiles.VAF.Extensions/Configuration/ScheduledExecution/DayOfMonthTrigger.cs:247-283 | The future-day loop returns what the six-round search function returns. |
| Resolver.LaterSearchSkip | MFiles.VAF.Extensions/Configuration/ScheduledExecution/DayOfMonthTrigger.cs:249-274 | Under Skip the search finds day D of the first month of `after`'s year, from this month on and within six tries, that has D. It finds nothing exactly when no such month has it. |
| Resolver.GetNextDayOfMonth | MFiles.VAF.Extensions/Configuration/ScheduledExecution/DayOfMonthTrigger.cs:158-287 | The iterator, evaluated in yield order, produces exactly the candidate sequence of the specification function. |
| Resolver.GetVariableCandidates | MFiles.VAF.Extensions/Configuration/ScheduledExecution/DayOfMonthTrigger.cs:168-218 | The VariableDate half of the iterator equals its specification function. |
| Resolver.GetSpecificCandidates | MFiles.VAF.Extensions/Configuration/ScheduledExecution/DayOfMonthTrigger.cs:219-285 | The SpecificDate half of the iterator equals its specification function. |
| Resolver.SpecificOutOfRange | MFiles.VAF.Extensions/Configuration/ScheduledExecution/DayOfMonthTrigger.cs:221-222 | No candidates exactly when D is outside 1..32, or when the Skip search finds no month with D. |
| Resolver.SpecificDay32Skip | MFiles.VAF.Extensions/Configuration/ScheduledExecution/DayOfMonthTrigger.cs:221 | Day 32 passes the range guard, but under Skip it yields nothing. |
| Resolver.SpecificToday | MFiles.VAF.Extensions/Configuration/ScheduledExecution/DayOfMonthTrigger.cs:225-236 | When D is today: exactly two items. First `after` itself, time included. Then midnight of day D of next month, or, when next month is shorter than D, the overrun into the month after. |
| Resolver.SpecificPassed | MFiles.VAF.Extensions/Configuration/ScheduledExecution/DayOfMonthTrigger.cs:237-243 | When D has passed: exactly one item, day D of next month clamped to its last day, under either policy. |
| Resolver.SpecificLaterLastDay | MFiles.VAF.Extensions/Configuration/ScheduledExecution/DayOfMonthTrigger.cs:244-283 | When D is later and the policy is LastDayOfMonth: day D this month, or this month's last day if it has no day D. |
| Resolver.SpecificLaterSkip | MFiles.VAF.Extensions/Configuration/ScheduledExecution/DayOfMonthTrigger.cs:244-283 | When D is later and the policy is Skip: day D in the first month of the same year, within six, that has it. Nothing when none has it. |
| Resolver.VariableCandidatesCount | MFiles.VAF.Extensions/Configuration/ScheduledExecution/DayOfMonthTrigger.cs:172-175 | VariableDate mode yields nothing exactly when n is outside 1..5. Otherwise it yields one or two items. |
| Resolver.VariableMissing | MFiles.VAF.Extensions/Configuration/ScheduledExecution/DayOfMonthTrigger.cs:181-200 | No nth weekday this month. LastDayOfMonth gives this month's last day, then the next-month date if that day is today. Skip gives only the next-month date. |
| Resolver.VariableToday | MFiles.VAF.Extensions/Configuration/ScheduledExecution/DayOfMonthTrigger.cs:202-207 | The nth weekday is today: `after` itself, then the next-month date. |
| Resolver.VariableLater | MFiles.VAF.Extensions/Configuration/ScheduledExecution/DayOfMonthTrigger.cs:209-212 | The nth weekday is later this month: midnight of that day only, which falls on the wanted weekday. |
| Resolver.VariablePassed | MFiles.VAF.Extensions/Configuration/ScheduledExecution/DayOfMonthTrigger.cs:213-217 | The nth weekday has passed: only the next-month date, in a later month. |
| Resolver.NextDayOfMonthNotBefore | MFiles.VAF.Extensions/Configuration/ScheduledExecution/DayOfMonthTrigger.cs:158-287 | Every candidate in either mode is a valid instant, and none falls on a day before `after`'s day. |
| Scheduler.NextExecutionGuards | MFiles.VAF.Extensions/Configuration/ScheduledExecution/DayOfMonthTrigger.cs:113-118 | No next execution when TriggerTimes or TriggerDays is empty, whatever the mode. |
| Scheduler.EarliestAfter | MFiles.VAF.Extensions/Configuration/ScheduledExecution/DayOfMonthTrigger.cs:140-144 | The earliest qualifying result: when present, it is one of the results and lies strictly after the reference. |
| Scheduler.NextExecutionAsWritten | MFiles.VAF.Extensions/Configuration/ScheduledExecution/DayOfMonthTrigger.cs:110-145 | GetNextExecution as written: null exactly when TriggerTimes or TriggerDays is empty; otherwise the earliest qualifying result, or default(DateTimeOffset) when none qualifies. |
| Scheduler.NextExecution | MFiles.VAF.Extensions/Configuration/ScheduledExecution/DayOfMonthTrigger.cs:110-145 | Corrected GetNextExecution: null when either list is empty, and any result lies strictly after the reference. |
| Scheduler.MinValueFirst | MFiles.VAF.Extensions/Configuration/ScheduledExecution/DayOfMonthTrigger.cs:143-144 | default(DateTimeOffset), 0001-01-01T00:00, is no later than any instant of year 1 or later. |
| Scheduler.NextExecutionAsWrittenDefault | MFiles.VAF.Extensions/Configuration/ScheduledExecution/DayOfMonthTrigger.cs:140-144 | When some result qualifies, the source returns what the corrected version returns. When none does, it returns default(DateTimeOffset), which is not after the reference. |
| Scheduler.AsWrittenReturnsMinValue | MFiles.VAF.Extensions/Configuration/ScheduledExecution/DayOfMonthTrigger.cs:140-144 | With day 32 under Skip there are no candidates: the source returns 0001-01-01T00:00 where the corrected version returns null. |
| Scheduler.EarliestAfterIsMinimum | MFiles.VAF.Extensions/Configuration/ScheduledExecution/DayOfMonthTrigger.cs:140-144 | The Where and OrderBy chain, taken first: a value strictly after the reference that is among the inputs and no later than any qualifying input, or None exactly when no input qualifies. Where the source's FirstOrDefault then gives default(DateTimeOffset) is stated in `NextExecutionAsWritten`. |
| Scheduler.NextExecutionIsEarliest | MFiles.VAF.Extensions/Configuration/ScheduledExecution/DayOfMonthTrigger.cs:130-144 | Corrected GetNextExecution (see Findings): the earliest daily-trigger result, over all candidates of all TriggerDays entries, that lies strictly after the reference, or null when there is none. |
| Scheduler.AllCandidatesMembers | MFiles.VAF.Extensions/Configuration/ScheduledExecution/DayOfMonthTrigger.cs:130-134 | The candidates are exactly those the resolver gives for the individual TriggerDays entries. |
| Scheduler.VariableDateIgnoresDays | MFiles.VAF.Extensions/Configuration/ScheduledExecution/DayOfMonthTrigger.cs:130-134 | In VariableDate mode the result depends on TriggerDays only through whether it is empty. |
| TriggerText.SortAscendingCorrect | MFiles.VAF.Extensions/Configuration/ScheduledExecution/DayOfMonthTrigger.cs:386 | `OrderBy` yields an ascending sequence with exactly the input's elements. |
| TriggerText.SortedPermutationUnique | MFiles.VAF.Extensions/Configuration/ScheduledExecution/DayOfMonthTrigger.cs:395 | Two ascending arrangements of the same elements are equal, so the order of the listing is fully determined. |
| TriggerText.IntTextRoundTrip | MFiles.VAF.Extensions/Configuration/ScheduledExecution/DayOfMonthTrigger.cs:395 | A day's decimal text reads back as the same number and holds no comma. |
| TriggerText.NatTextRoundTrip | MFiles.VAF.Extensions/Configuration/ScheduledExecution/DayOfMonthTrigger.cs:395 | Decimal text of a non-negative number reads back as the number, is all digits, and has no leading zero. |
| TriggerText.TimeSpanTextRoundTrip | MFiles.VAF.Extensions/Configuration/ScheduledExecution/DayOfMonthTrigger.cs:386 | The `[-][d.]hh:mm:ss[.fffffff]` rendering of a time span reads back as the same tick count and holds no comma. |
| TriggerText.SplitJoin | MFiles.VAF.Extensions/Configuration/ScheduledExecution/DayOfMonthTrigger.cs:386 | Joining pieces that contain no comma with ", " and cutting at ", " gives back the pieces. |
| TriggerText.DescribeNull | MFiles.VAF.Extensions/Configuration/ScheduledExecution/DayOfMonthTrigger.cs:379-382 | `ToString` gives null exactly when TriggerDays or TriggerTimes is empty. |
| TriggerText.Describe | MFiles.VAF.Extensions/Configuration/ScheduledExecution/DayOfMonthTrigger.cs:376-398 | ToString's two joined lists; `DescribeNull`, `DescribeDays` and `DescribeTimes` state what they hold. |
| TriggerText.DescribeDays | MFiles.VAF.Extensions/Configuration/ScheduledExecution/DayOfMonthTrigger.cs:395 | The days text, cut at ", " and read back, is ascending and holds exactly the configured days. |
| TriggerText.DescribeTimes | MFiles.VAF.Extensions/Configuration/ScheduledExecution/DayOfMonthTrigger.cs:385-392 | The times text is a listing that reads back as the configured times in ascending order, followed by the zone suffix: nothing for no zone, " (server time)", " (UTC)", or the display name in brackets. |
| TriggerText.TimeSpanTextExample | MFiles.VAF.Extensions/Configuration/ScheduledExecution/DayOfMonthTrigger.cs:386 | 17:30 renders as "17:30:00". |
| KnownValues.NoMinusFirstWednesdayInFebruary2025 | MFiles.VAF.Extensions.Tests/Configuration/ScheduledExecution/DayOfMonthTriggerTests.cs:282-288 | Asked from any day of February 2025, n = −1 with Wednesday gives -1, both from the source's month-only test (the stepped-to date, 22 January 2025, is in January) and from the corrected test. |
| KnownValues.NoSixthThursdayInFebruary2025 | MFiles.VAF.Extensions.Tests/Configuration/ScheduledExecution/DayOfMonthTriggerTests.cs:290-296 | Asked from any day of February 2025, n = 6 with Thursday gives -1, both from the source's month-only test (the stepped-to date, 13 March 2025, is in March) and from the corrected test. |
| KnownValues.FirstFridayOfJanuary2025 | MFiles.VAF.Extensions.Tests/Configuration/ScheduledExecution/DayOfMonthTriggerTests.cs:298-304 | Asked from any day of the month, as from the test's date: the 1st Friday of January 2025 is the 3rd. |
| KnownValues.FirstWednesdayOfJanuary2025 | MFiles.VAF.Extensions.Tests/Configuration/ScheduledExecution/DayOfMonthTriggerTests.cs:306-312 | Asked from any day of the month, as from the test's date: the 1st Wednesday of January 2025 is the 1st. |
| KnownValues.SecondThursdayOfJanuary2025 | MFiles.VAF.Extensions.Tests/Configuration/ScheduledExecution/DayOfMonthTriggerTests.cs:314-320 | Asked from any day of the month, as from the test's date: the 2nd Thursday of January 2025 is the 9th. |
| KnownValues.SecondWednesdayOfJanuary2025 | MFiles.VAF.Extensions.Tests/Configuration/ScheduledExecution/DayOfMonthTriggerTests.cs:322-328 | Asked from any day of the month, as from the test's date: the 2nd Wednesday of January 2025 is the 8th. |
| KnownValues.FirstTuesdayOfJanuary2025 | MFiles.VAF.Extensions.Tests/Configuration/ScheduledExecution/DayOfMonthTriggerTests.cs:330-336 | Asked from any day of the month, as from the test's date: the 1st Tuesday of January 2025 is the 7th. |
| KnownValues.FourthMondayOfJanuary2025 | MFiles.VAF.Extensions.Tests/Configuration/ScheduledExecution/DayOfMonthTriggerTests.cs:338-344 | Asked from any day of the month, as from the test's date: the 4th Monday of January 2025 is the 27th. |
| KnownValues.FifthWednesdayOfJanuary2025 | MFiles.VAF.Extensions.Tests/Configuration/ScheduledExecution/DayOfMonthTriggerTests.cs:346-352 | Asked from any day of the month, as from the test's date: the 5th Wednesday of January 2025 is the 29th. |
| KnownValues.FifthFridayOfJanuary2025 | MFiles.VAF.Extensions.Tests/Configuration/ScheduledExecution/DayOfMonthTriggerTests.cs:354-360 | Asked from any day of the month, as from the test's date: the 5th Friday of January 2025 is the 31st. |
| KnownValues.NoFifthSaturdayInJanuary2025 | MFiles.VAF.Extensions.Tests/Configuration/ScheduledExecution/DayOfMonthTriggerTests.cs:362-368 | Asked from any day of the month, as from the test's date: january 2025 has no 5th Saturday: -1. |
| KnownValues.NoFifthMondayInJanuary2025 | MFiles.VAF.Extensions.Tests/Configuration/ScheduledExecution/DayOfMonthTriggerTests.cs:370-376 | Asked from any day of the month, as from the test's date: january 2025 has no 5th Monday: -1. |
| KnownValues.FourthFridayOfFebruary2025 | MFiles.VAF.Extensions.Tests/Configuration/ScheduledExecution/DayOfMonthTriggerTests.cs:378-384 | Asked from any day of the month, as from the test's date: the 4th Friday of February 2025 is the 28th. |
| KnownValues.FourthSaturdayOfFebruary2025 | MFiles.VAF.Extensions.Tests/Configuration/ScheduledExecution/DayOfMonthTriggerTests.cs:386-392 | Asked from any day of the month, as from the test's date: the 4th Saturday of February 2025 is the 22nd. |
| KnownValues.NoFifthSaturdayInFebruary2025 | MFiles.VAF.Extensions.Tests/Configuration/ScheduledExecution/DayOfMonthTriggerTests.cs:394-400 | Asked from any day of the month, as from the test's date: february 2025 has no 5th Saturday: -1. |
| KnownValues.FourthMondayOfFebruary2028 | MFiles.VAF.Extensions.Tests/Configuration/ScheduledExecution/DayOfMonthTriggerTests.cs:402-408 | Asked from any day of the month, as from the test's date: the 4th Monday of leap-year February 2028 is the 28th. |
| KnownValues.FifthTuesdayOfFebruary2028 | MFiles.VAF.Extensions.Tests/Configuration/ScheduledExecution/DayOfMonthTriggerTests.cs:410-416 | Asked from any day of the month, as from the test's date: the 5th Tuesday of leap-year February 2028 is the 29th. |
| KnownValues.FifthWednesdayOfDecember2025 | MFiles.VAF.Extensions.Tests/Configuration/ScheduledExecution/DayOfMonthTriggerTests.cs:418-424 | Asked from any day of the month, as from the test's date: the 5th Wednesday of December 2025 is the 31st. |
| KnownValues.NoFifthThursdayInDecember2025 | MFiles.VAF.Extensions.Tests/Configuration/ScheduledExecution/DayOfMonthTriggerTests.cs:426-432 | Asked from any day of the month, as from the test's date: december 2025 has no 5th Thursday: -1. |
| KnownValues.NextFirstSaturdaySkip | MFiles.VAF.Extensions.Tests/Configuration/ScheduledExecution/DayOfMonthTriggerTests.cs:438-444 | From any day of January 2025, under Skip, the next 1st Saturday is 1 February 2025. |
| KnownValues.NextFirstSundaySkip | MFiles.VAF.Extensions.Tests/Configuration/ScheduledExecution/DayOfMonthTriggerTests.cs:447-453 | From any day of January 2025, under Skip, the next 1st Sunday is 2 February 2025. |
| KnownValues.NextSecondSundaySkip | MFiles.VAF.Extensions.Tests/Configuration/ScheduledExecution/DayOfMonthTriggerTests.cs:456-462 | From any day of January 2025, under Skip, the next 2nd Sunday is 9 February 2025. |
| KnownValues.NextThirdSundaySkip | MFiles.VAF.Extensions.Tests/Configuration/ScheduledExecution/DayOfMonthTriggerTests.cs:465-471 | From any day of January 2025, under Skip, the next 3rd Sunday is 16 February 2025. |
| KnownValues.NextFourthSundaySkip | MFiles.VAF.Extensions.Tests/Configuration/ScheduledExecution/DayOfMonthTriggerTests.cs:474-480 | From any day of January 2025, under Skip, the next 4th Sunday is 23 February 2025. |
| KnownValues.NextFourthFridaySkip | MFiles.VAF.Extensions.Tests/Configuration/ScheduledExecution/DayOfMonthTriggerTests.cs:483-489 | From any day of January 2025, under Skip, the next 4th Friday is 28 February 2025. |
| KnownValues.NextFifthSaturdaySkip | MFiles.VAF.Extensions.Tests/Configuration/ScheduledExecution/DayOfMonthTriggerTests.cs:492-498 | From any day of January 2025, under Skip, the next 5th Saturday skips February and is 29 March 2025. |
| KnownValues.NextFifthWednesdaySkip | MFiles.VAF.Extensions.Tests/Configuration/ScheduledExecution/DayOfMonthTriggerTests.cs:501-507 | From any day of January 2025, under Skip, the next 5th Wednesday skips February and March and is 30 April 2025. |
| KnownValues.NextFifthSaturdayLastDay | MFiles.VAF.Extensions.Tests/Configuration/ScheduledExecution/DayOfMonthTriggerTests.cs:510-516 | From any day of January 2025, under LastDayOfMonth, the 5th Saturday falls back to 28 February 2025. |
| KnownValues.NextFifthTuesdaySkip2028 | MFiles.VAF.Extensions.Tests/Configuration/ScheduledExecution/DayOfMonthTriggerTests.cs:519-525 | From any day of January 2028, under Skip, the next 5th Tuesday is 29 February 2028. |
| KnownValues.NextFifthWednesdaySkip2028 | MFiles.VAF.Extensions.Tests/Configuration/ScheduledExecution/DayOfMonthTriggerTests.cs:528-534 | From any day of January 2028, under Skip, the next 5th Wednesday skips February and is 29 March 2028. |
| KnownValues.SpecificTodayExample | MFiles.VAF.Extensions.Tests/Configuration/ScheduledExecution/DayOfMonthTriggerTests.cs:200-211 | On 17 March 2021, day 17 gives that day and 17 April 2021. |
| KnownValues.SpecificTomorrowExample | MFiles.VAF.Extensions.Tests/Configuration/ScheduledExecution/DayOfMonthTriggerTests.cs:213-220 | On 17 March 2021, day 18 gives 18 March 2021. |
| KnownValues.SpecificYesterdayExample | MFiles.VAF.Extensions.Tests/Configuration/ScheduledExecution/DayOfMonthTriggerTests.cs:222-229 | On 17 March 2021, day 16 gives 16 April 2021. |
| KnownValues.SpecificInvalidDayExamples | MFiles.VAF.Extensions.Tests/Configuration/ScheduledExecution/DayOfMonthTriggerTests.cs:231-245 | Days −1 and 45 give no candidates. |
| KnownValues.SpecificThirtiethSkip | MFiles.VAF.Extensions.Tests/Configuration/ScheduledExecution/DayOfMonthTriggerTests.cs:247-254 | On 17 February 2021, under Skip, day 30 gives 30 March 2021. |
| KnownValues.SpecificThirtiethLastDay | MFiles.VAF.Extensions.Tests/Configuration/ScheduledExecution/DayOfMonthTriggerTests.cs:256-272 | On 17 February, under LastDayOfMonth, day 30 gives 28 February 2021, or 29 February 2024 in the leap year. |

## Left out

- The clock and time-zone conversion: `DateTime.UtcNow` and `TimeZoneInfo.ConvertTime` (`DayOfMonthTrigger.cs:120-127`).
  - The model takes the already-converted reference instant as input.
  - All instants share one fixed offset, so the final `ToUniversalTime()` (`DayOfMonthTrigger.cs:143`) does not change which instant is returned and is not modelled.
- `DailyTrigger.GetNextExecutionIncludingNextDay` (`DayOfMonthTrigger.cs:137-138`) is not part of this model.
  - It is the function parameter `dailyNext`, and the model relies on nothing else about it.
  - It stands for the daily trigger built from the configured times and zone.
  - Its results are valid `DateTimeOffset` values or null.
- The .NET year range 1..9999 and its `ArgumentOutOfRangeException` are not modelled. Years are unbounded integers. The only exception that is modelled is the one `new DateTimeOffset(y, m, d, …)` throws for a day or month that does not exist, at line 256. The `Representable` predicate models it.
- 64-bit overflow of tick counts and of `TimeSpan` values is not modelled; they are unbounded integers.
- `Resources.Schedule.Triggers_DayOfMonthTrigger.EscapeXmlForDashboard` (`DayOfMonthTrigger.cs:393-397`) and localised resource text are not part of this model.
  - The model stops at the two joined strings passed to it.
  - A custom zone's `DisplayName` is a plain string parameter.
  - The unused `triggerTimeType` argument is left out.
- `IntText` renders negative days with "-". That is the invariant culture's negative sign; culture-specific signs are not modelled.
- `GetNextDayOfMonth` is a lazy `yield` iterator. The model produces its items eagerly, in yield order. Nothing in the source observes the difference, since `SelectMany` consumes every item.
- Null `TriggerDays` and `TriggerTimes` lists are modelled as empty sequences. The source treats the two alike.
- The configuration attributes, editor metadata and the constructor that sets `Type = Monthly` carry no behaviour and are left out.
- `Scheduler.NextExecutionIsEarliest`: "earliest" is stated by tick count at the one fixed offset. That is how `DateTimeOffset` compares and orders, since it compares UTC instants.
- `VariableDates.GetNextMonthWithValidVariableDate` calls the corrected year-and-month test, while the source's loop at line 339 calls the month-only one. For n in 1..5, the only n `GetNextDayOfMonth` passes, the two searches agree (`VariableDates.AsWrittenSearchAgreesInRange`).
- `VariableDates.NextMonthWithValidVariableDate` is the search over the corrected test. For n outside 1..5 the source can return a date where it returns `None` (`VariableDates.AsWrittenSearchFindsDayInNextYear`).
- `VariableDates.NextMonthOutOfRange` holds of the corrected search only: for n outside 1..5 the source's search can return a date, even one in a later month than the one examined (`VariableDates.AsWrittenSearchRollsIntoMarch`).
- `Scheduler.NextExecution` returns null when no result qualifies; the source returns default(DateTimeOffset) there (see Findings). `Scheduler.NextExecutionAsWritten` models the source.
  - `Scheduler.MinValue` is midnight of 0001-01-01 at the model's one offset; in .NET its offset is zero.

## Findings

| source | as written | input that shows it | evidently intended | confidence | as-written member | corrected member |
|---|---|---|---|---|---|---|
| MFiles.VAF.Extensions/Configuration/ScheduledExecution/DayOfMonthTrigger.cs:312 | `GetVariableDateOfMonth` decides whether the stepped-to date left the month by comparing only `Month`. | Date 13 January 2025, nthWeekday 54, Wednesday: 53 weeks after 1 January 2025 is 7 January 2026, again a January, so it returns 7. | The nth weekday of the same month and year, or -1: compare year and month. For the n in 1..5 that `GetNextDayOfMonth` passes, the two agree (`VariableDates.AsWrittenAgreesInRange`). | not executed | VariableDates.AsWrittenFindsDayInNextYear | VariableDates.VariableDateOfMonthIsNthWeekday |
| MFiles.VAF.Extensions/Configuration/ScheduledExecution/DayOfMonthTrigger.cs:140-144 | `GetNextExecution` applies `FirstOrDefault()` after `.Select(d => d.Value)`, so it runs over non-nullable `DateTimeOffset` values. | TriggerTimes [17:00], TriggerDays [32], SpecificDate, Skip: no candidate exists, and the method returns 0001-01-01T00:00:00+00:00 instead of null. | Null when no execution lies after the reference, as the nullable result type and the guard at lines 113-118 suggest. | not executed | Scheduler.AsWrittenReturnsMinValue | Scheduler.NextExecutionIsEarliest |
