/**
 * DayOfMonthTrigger.GetNextExecution: every TriggerDays entry is resolved to
 * its candidate dates, each candidate goes through the daily trigger's
 * time-of-day logic, and the earliest result strictly after the reference
 * instant wins.
 */
module Scheduler {
  import opened Wrappers
  import opened Calendar
  import opened TriggerTypes
  import opened Resolver

  /** A DateTimeOffset value: always a real date and a time within the day. */
  type DateTimeOffset = t: Instant | ValidInstant(t) witness Midnight(Date(1, 1, 1))

  /** The trigger's configuration, as far as GetNextExecution reads it. */
  datatype Config = Config(
    triggerTimes: seq<int>,
    triggerDays: seq<int>,
    handling: UnrepresentableDateHandling,
    dayType: DayOfMonthTriggerType,
    nthDay: int,
    weekday: DayOfWeek)

  /** The candidate dates of one TriggerDays entry, as GetNextDayOfMonth gives them. */
  function DayResolver(after: DateTimeOffset, c: Config): int -> seq<Instant> {
    day => NextDayOfMonth(after, day, c.handling, c.dayType, c.nthDay, c.weekday)
  }

  /** SelectMany: the candidates of every TriggerDays entry, in order. */
  function AllCandidates(days: seq<int>, resolve: int -> seq<Instant>): seq<Instant> {
    if |days| == 0 then []
    else resolve(days[0]) + AllCandidates(days[1..], resolve)
  }

  /** Select: what the daily logic makes of each candidate. */
  function Results(cands: seq<Instant>, dailyNext: Instant -> Option<DateTimeOffset>): (r: seq<Option<DateTimeOffset>>)
    ensures |r| == |cands|
    ensures forall i :: 0 <= i < |cands| ==> r[i] == dailyNext(cands[i])
  {
    if |cands| == 0 then [] else [dailyNext(cands[0])] + Results(cands[1..], dailyNext)
  }

  /**
   * Where(d > after), OrderBy, FirstOrDefault: the earliest present value
   * strictly after `after`. A null result fails `d > after` (a lifted
   * comparison with null is false). Of equal values the first is kept.
   */
  function EarliestAfter(results: seq<Option<DateTimeOffset>>, after: DateTimeOffset): (r: Option<DateTimeOffset>)
    ensures r.Some? ==> r in results && Ticks(r.value) > Ticks(after)
  {
    if |results| == 0 then None
    else
      var rest := EarliestAfter(results[1..], after);
      var d := results[0];
      if d.Some? && Ticks(d.value) > Ticks(after) && (rest.None? || Ticks(d.value) <= Ticks(rest.value)) then d
      else rest
  }

  /** A result that survives the filter. */
  predicate Qualifies(d: Option<DateTimeOffset>, after: DateTimeOffset) {
    d.Some? && Ticks(d.value) > Ticks(after)
  }

  /** DateTimeOffset.MinValue, which is default(DateTimeOffset): midnight of 1 January of year 1. */
  const MinValue: DateTimeOffset := Midnight(Date(1, 1, 1))

  /**
   * GetNextExecution as the source writes it. `dailyNext` stands for
   * DailyTrigger.GetNextExecutionIncludingNextDay with the configured times
   * and zone; the model relies on nothing about it beyond returning a valid
   * value or null. After `.Select(d => d.Value)` the sequence holds
   * non-nullable values, so when no result qualifies `FirstOrDefault` gives
   * default(DateTimeOffset) rather than null: null comes only from the guard.
   */
  function NextExecutionAsWritten(c: Config, after: DateTimeOffset, dailyNext: Instant -> Option<DateTimeOffset>): (r: Option<DateTimeOffset>)
    ensures r.None? <==> |c.triggerTimes| == 0 || |c.triggerDays| == 0
  {
    if |c.triggerTimes| == 0 || |c.triggerDays| == 0 then None
    else
      var earliest := EarliestAfter(Results(AllCandidates(c.triggerDays, DayResolver(after, c)), dailyNext), after);
      if earliest.None? then Some(MinValue) else earliest
  }

  /**
   * GetNextExecution, corrected: null also when no candidate's result lies
   * after the reference, as its nullable result type suggests.
   */
  function NextExecution(c: Config, after: DateTimeOffset, dailyNext: Instant -> Option<DateTimeOffset>): (r: Option<DateTimeOffset>)
    ensures (|c.triggerTimes| == 0 || |c.triggerDays| == 0) ==> r.None?
    ensures r.Some? ==> Ticks(r.value) > Ticks(after)
  {
    if |c.triggerTimes| == 0 || |c.triggerDays| == 0 then None
    else EarliestAfter(Results(AllCandidates(c.triggerDays, DayResolver(after, c)), dailyNext), after)
  }

  /** EarliestAfter is the minimum of the qualifying results, and None exactly when there is none. */
  lemma {:induction false} EarliestAfterIsMinimum(results: seq<Option<DateTimeOffset>>, after: DateTimeOffset)
    ensures var r := EarliestAfter(results, after);
            && (r.None? <==> forall i :: 0 <= i < |results| ==> !Qualifies(results[i], after))
            && (r.Some? ==>
                  && Ticks(r.value) > Ticks(after)
                  && (exists i :: 0 <= i < |results| && results[i] == r)
                  && forall i :: 0 <= i < |results| && Qualifies(results[i], after) ==> Ticks(r.value) <= Ticks(results[i].value))
    decreases |results|
  {
    if |results| > 0 {
      var rest := results[1..];
      EarliestAfterIsMinimum(rest, after);
      var r := EarliestAfter(results, after);
      forall i | 1 <= i < |results|
        ensures results[i] == rest[i - 1]
      {
      }
      if r.Some? && r != results[0] {
        var j :| 0 <= j < |rest| && rest[j] == EarliestAfter(rest, after);
        assert results[j + 1] == r;
      }
    }
  }

  /** Null when TriggerTimes or TriggerDays is empty, whatever the mode and the reference. */
  lemma NextExecutionGuards(c: Config, after: DateTimeOffset, dailyNext: Instant -> Option<DateTimeOffset>)
    requires |c.triggerTimes| == 0 || |c.triggerDays| == 0
    ensures NextExecution(c, after, dailyNext) == None
  {
  }

  /**
   * Over candidate dates: the earliest qualifying result is among the daily
   * logic's results, and None means none qualifies.
   */
  lemma EarliestOfCandidates(cands: seq<Instant>, after: DateTimeOffset, dailyNext: Instant -> Option<DateTimeOffset>)
    ensures var r := EarliestAfter(Results(cands, dailyNext), after);
            && (r.None? <==> forall x :: x in cands ==> !Qualifies(dailyNext(x), after))
            && (r.Some? ==>
                  && Ticks(r.value) > Ticks(after)
                  && (exists x :: x in cands && dailyNext(x) == r)
                  && forall x :: x in cands && Qualifies(dailyNext(x), after) ==> Ticks(r.value) <= Ticks(dailyNext(x).value))
  {
    var results := Results(cands, dailyNext);
    EarliestAfterIsMinimum(results, after);
    var r := EarliestAfter(results, after);
    if r.Some? {
      var i :| 0 <= i < |results| && results[i] == r;
      assert cands[i] in cands;
    }
    forall x | x in cands && Qualifies(dailyNext(x), after)
      ensures r.Some? && Ticks(r.value) <= Ticks(dailyNext(x).value)
    {
      var i :| 0 <= i < |cands| && cands[i] == x;
      assert Qualifies(results[i], after);
    }
  }

  /**
   * Otherwise the result is strictly after the reference, is what the daily
   * logic gives for one of the candidate dates, and is no later than what it
   * gives for any candidate once that lies after the reference; null when
   * nothing does.
   */
  lemma NextExecutionIsEarliest(c: Config, after: DateTimeOffset, dailyNext: Instant -> Option<DateTimeOffset>)
    requires |c.triggerTimes| > 0 && |c.triggerDays| > 0
    ensures var cands := AllCandidates(c.triggerDays, DayResolver(after, c));
            var r := NextExecution(c, after, dailyNext);
            && (r.None? <==> forall x :: x in cands ==> !Qualifies(dailyNext(x), after))
            && (r.Some? ==>
                  && Ticks(r.value) > Ticks(after)
                  && (exists x :: x in cands && dailyNext(x) == r)
                  && forall x :: x in cands && Qualifies(dailyNext(x), after) ==> Ticks(r.value) <= Ticks(dailyNext(x).value))
  {
    EarliestOfCandidates(AllCandidates(c.triggerDays, DayResolver(after, c)), after, dailyNext);
  }

  /** No instant of year 1 or later lies before DateTimeOffset.MinValue. */
  lemma MinValueFirst(t: DateTimeOffset)
    requires t.date.year >= 1
    ensures Ticks(MinValue) <= Ticks(t)
  {
    DayNumberOrder(MinValue.date, t.date);
  }

  /**
   * As written, GetNextExecution agrees with the corrected version whenever
   * some result qualifies; when none does it returns default(DateTimeOffset),
   * which (for any reference in .NET's year range) is not after the reference.
   */
  lemma NextExecutionAsWrittenDefault(c: Config, after: DateTimeOffset, dailyNext: Instant -> Option<DateTimeOffset>)
    requires |c.triggerTimes| > 0 && |c.triggerDays| > 0 && after.date.year >= 1
    ensures var cands := AllCandidates(c.triggerDays, DayResolver(after, c));
            var r := NextExecutionAsWritten(c, after, dailyNext);
            && ((exists x :: x in cands && Qualifies(dailyNext(x), after)) ==> r == NextExecution(c, after, dailyNext))
            && ((forall x :: x in cands ==> !Qualifies(dailyNext(x), after)) ==> r == Some(MinValue) && !Qualifies(r, after))
  {
    NextExecutionIsEarliest(c, after, dailyNext);
    MinValueFirst(after);
  }

  /**
   * Day 32 under Skip has no candidates, so as written GetNextExecution
   * returns 0001-01-01 where the corrected version returns null.
   */
  lemma AsWrittenReturnsMinValue(c: Config, after: DateTimeOffset, dailyNext: Instant -> Option<DateTimeOffset>)
    requires |c.triggerTimes| > 0 && c.triggerDays == [32] && c.dayType == SpecificDate && c.handling == Skip
    ensures NextExecutionAsWritten(c, after, dailyNext) == Some(MinValue)
    ensures NextExecution(c, after, dailyNext) == None
  {
    SpecificDay32Skip(after);
    assert AllCandidates(c.triggerDays, DayResolver(after, c)) == [];
  }

  /** The candidates are exactly those of the individual TriggerDays entries. */
  lemma {:induction false} AllCandidatesMembers(days: seq<int>, resolve: int -> seq<Instant>, x: Instant)
    ensures x in AllCandidates(days, resolve) <==> exists k :: 0 <= k < |days| && x in resolve(days[k])
    decreases |days|
  {
    if |days| > 0 {
      AllCandidatesMembers(days[1..], resolve, x);
      if x in resolve(days[0]) {
        assert 0 < |days| && x in resolve(days[0]);
      }
      if exists k :: 0 <= k < |days| && x in resolve(days[k]) {
        var k :| 0 <= k < |days| && x in resolve(days[k]);
        if k > 0 {
          assert days[1..][k - 1] == days[k];
        }
      }
    }
  }

  /** In VariableDate mode every entry resolves to the same candidates. */
  lemma VariableResolverConstant(after: DateTimeOffset, c: Config, day: int)
    requires c.dayType == VariableDate
    ensures DayResolver(after, c)(day) == VariableCandidates(after, c.handling, c.nthDay, c.weekday)
  {
  }

  /** Candidate lists with the same members give the same result. */
  lemma SameCandidatesSameResult(c1: seq<Instant>, c2: seq<Instant>, after: DateTimeOffset, dailyNext: Instant -> Option<DateTimeOffset>)
    requires forall x :: x in c1 <==> x in c2
    ensures EarliestAfter(Results(c1, dailyNext), after) == EarliestAfter(Results(c2, dailyNext), after)
  {
    EarliestOfCandidates(c1, after, dailyNext);
    EarliestOfCandidates(c2, after, dailyNext);
    var r1 := EarliestAfter(Results(c1, dailyNext), after);
    var r2 := EarliestAfter(Results(c2, dailyNext), after);
    if r1.Some? && r2.Some? {
      TicksOrder(r1.value, r2.value);
    }
  }

  /**
   * In VariableDate mode the day values are never read: the result depends on
   * TriggerDays only through whether it is empty.
   */
  lemma VariableDateIgnoresDays(c: Config, days: seq<int>, after: DateTimeOffset, dailyNext: Instant -> Option<DateTimeOffset>)
    requires c.dayType == VariableDate && |c.triggerDays| > 0 && |days| > 0
    ensures NextExecution(c, after, dailyNext) == NextExecution(c.(triggerDays := days), after, dailyNext)
  {
    var c' := c.(triggerDays := days);
    var one := VariableCandidates(after, c.handling, c.nthDay, c.weekday);
    var all1 := AllCandidates(c.triggerDays, DayResolver(after, c));
    var all2 := AllCandidates(days, DayResolver(after, c'));
    forall k | 0 <= k < |c.triggerDays|
      ensures DayResolver(after, c)(c.triggerDays[k]) == one
    {
      VariableResolverConstant(after, c, c.triggerDays[k]);
    }
    forall k | 0 <= k < |days|
      ensures DayResolver(after, c')(days[k]) == one
    {
      VariableResolverConstant(after, c', days[k]);
    }
    forall x
      ensures x in all1 <==> x in one
      ensures x in all2 <==> x in one
    {
      AllCandidatesMembers(c.triggerDays, DayResolver(after, c), x);
      AllCandidatesMembers(days, DayResolver(after, c'), x);
      assert DayResolver(after, c)(c.triggerDays[0]) == one;
      assert DayResolver(after, c')(days[0]) == one;
    }
    SameCandidatesSameResult(all1, all2, after, dailyNext);
  }
}
