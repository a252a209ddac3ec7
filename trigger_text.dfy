/**
 * The list-formatting part of DayOfMonthTrigger.ToString: the configured days
 * and times are sorted ascending, rendered and joined with ", ", and the
 * times get a suffix naming the time zone. The two joined strings are what
 * the localised resource formatter receives.
 */
module TriggerText {
  import opened Wrappers
  import Calendar

  // ---------------------------------------------------------------------
  // Sorting (Enumerable.OrderBy on integers and TimeSpan ticks)
  // ---------------------------------------------------------------------

  predicate Sorted(xs: seq<int>) {
    forall i, j :: 0 <= i < j < |xs| ==> xs[i] <= xs[j]
  }

  function Insert(x: int, xs: seq<int>): seq<int> {
    if |xs| == 0 || x <= xs[0] then [x] + xs
    else [xs[0]] + Insert(x, xs[1..])
  }

  /** OrderBy(t => t). */
  function SortAscending(xs: seq<int>): seq<int> {
    if |xs| == 0 then [] else Insert(xs[0], SortAscending(xs[1..]))
  }

  lemma {:induction false} InsertMembers(x: int, xs: seq<int>)
    ensures multiset(Insert(x, xs)) == multiset(xs) + multiset{x}
    decreases |xs|
  {
    if |xs| > 0 && x > xs[0] {
      InsertMembers(x, xs[1..]);
      assert xs == [xs[0]] + xs[1..];
    }
  }

  lemma {:induction false} InsertKeepsSorted(x: int, xs: seq<int>)
    requires Sorted(xs)
    ensures Sorted(Insert(x, xs))
    ensures multiset(Insert(x, xs)) == multiset(xs) + multiset{x}
    decreases |xs|
  {
    InsertMembers(x, xs);
    if |xs| > 0 && x > xs[0] {
      var r := Insert(x, xs[1..]);
      InsertKeepsSorted(x, xs[1..]);
      assert Sorted(xs[1..]);
      forall k | 0 <= k < |r|
        ensures xs[0] <= r[k]
      {
        assert r[k] in multiset(xs[1..]) + multiset{x} by {
          assert r[k] in multiset(r);
        }
        if r[k] != x {
          var j :| 0 <= j < |xs[1..]| && xs[1..][j] == r[k];
          assert xs[j + 1] == r[k];
        }
      }
      SortedCons(xs[0], r);
    }
  }

  lemma SortedCons(h: int, r: seq<int>)
    requires Sorted(r) && forall k :: 0 <= k < |r| ==> h <= r[k]
    ensures Sorted([h] + r)
  {
    var s := [h] + r;
    forall i, j | 0 <= i < j < |s|
      ensures s[i] <= s[j]
    {
      assert s[j] == r[j - 1];
      if i > 0 {
        assert s[i] == r[i - 1];
      }
    }
  }

  /** The result is ascending and holds exactly the input's elements. */
  lemma {:induction false} SortAscendingCorrect(xs: seq<int>)
    ensures Sorted(SortAscending(xs))
    ensures multiset(SortAscending(xs)) == multiset(xs)
    decreases |xs|
  {
    if |xs| > 0 {
      SortAscendingCorrect(xs[1..]);
      InsertKeepsSorted(xs[0], SortAscending(xs[1..]));
      assert xs == [xs[0]] + xs[1..];
    }
  }

  /** Only one ascending arrangement of a collection exists, so the order is fully determined. */
  lemma {:induction false} SortedPermutationUnique(a: seq<int>, b: seq<int>)
    requires Sorted(a) && Sorted(b) && multiset(a) == multiset(b)
    ensures a == b
    decreases |a|
  {
    assert |a| == |multiset(a)| == |multiset(b)| == |b|;
    if |a| > 0 {
      assert a == [a[0]] + a[1..];
      assert b == [b[0]] + b[1..];
      assert a[0] == b[0] by {
        assert a[0] in multiset(b);
        assert b[0] in multiset(a);
        var i :| 0 <= i < |b| && b[i] == a[0];
        var j :| 0 <= j < |a| && a[j] == b[0];
        assert b[0] <= b[i] && a[0] <= a[j];
      }
      assert multiset(a[1..]) == multiset(b[1..]) by {
        assert multiset(a[1..]) == multiset(a) - multiset{a[0]};
        assert multiset(b[1..]) == multiset(b) - multiset{b[0]};
      }
      SortedPermutationUnique(a[1..], b[1..]);
    }
  }

  // ---------------------------------------------------------------------
  // Decimal digits
  // ---------------------------------------------------------------------

  function DigitChar(d: int): char
    requires 0 <= d <= 9
  {
    (48 + d) as char
  }

  /** The value of a string of decimal digits, most significant first. */
  function DigitsValue(s: string): int {
    if |s| == 0 then 0 else DigitsValue(s[..|s| - 1]) * 10 + (s[|s| - 1] as int - 48)
  }

  predicate AllDigits(s: string) {
    forall i :: 0 <= i < |s| ==> '0' <= s[i] <= '9'
  }

  /** Int32.ToString() of a non-negative value: no sign, no leading zeros. */
  function NatText(n: nat): (s: string)
    decreases n
  {
    if n < 10 then [DigitChar(n)] else NatText(n / 10) + [DigitChar(n % 10)]
  }

  /** The text reads back as the number, is made of digits and has no leading zero. */
  lemma {:induction false} NatTextRoundTrip(n: nat)
    ensures DigitsValue(NatText(n)) == n
    ensures AllDigits(NatText(n)) && |NatText(n)| > 0
    ensures NatText(n)[0] == '0' ==> n == 0
    decreases n
  {
    var s := NatText(n);
    if n >= 10 {
      NatTextRoundTrip(n / 10);
      assert s[..|s| - 1] == NatText(n / 10);
      assert s[0] == NatText(n / 10)[0];
    }
  }

  lemma DigitsHoldNoSeparator(s: string)
    requires AllDigits(s)
    ensures ',' !in s && ':' !in s && '-' !in s
  {
  }

  /** Int32.ToString() under an invariant culture: a minus sign, then the magnitude. */
  function IntText(i: int): string {
    if i < 0 then "-" + NatText(-i) else NatText(i)
  }

  function ParseInt(s: string): int {
    if |s| > 0 && s[0] == '-' then -DigitsValue(s[1..]) else DigitsValue(s)
  }

  lemma IntTextRoundTrip(i: int)
    ensures ParseInt(IntText(i)) == i
    ensures ',' !in IntText(i) && ':' !in IntText(i)
  {
    if i < 0 {
      NatTextRoundTrip(-i);
      assert IntText(i)[1..] == NatText(-i);
    } else {
      NatTextRoundTrip(i);
    }
  }

  function Pow10(w: nat): nat {
    if w == 0 then 1 else 10 * Pow10(w - 1)
  }

  /** Exactly `w` digits, zero-padded on the left (the "00" and "0000000" custom formats). */
  function Fixed(n: nat, w: nat): (s: string)
    requires n < Pow10(w)
    ensures |s| == w
  {
    if w == 0 then [] else Fixed(n / 10, w - 1) + [DigitChar(n % 10)]
  }

  lemma {:induction false} FixedRoundTrip(n: nat, w: nat)
    requires n < Pow10(w)
    ensures DigitsValue(Fixed(n, w)) == n
    ensures AllDigits(Fixed(n, w))
    decreases w
  {
    if w > 0 {
      FixedRoundTrip(n / 10, w - 1);
      var s := Fixed(n, w);
      assert s[..|s| - 1] == Fixed(n / 10, w - 1);
    }
  }

  // ---------------------------------------------------------------------
  // TimeSpan.ToString(), the constant ("c") format
  // ---------------------------------------------------------------------

  const TicksPerSecond: int := 10_000_000
  const TicksPerMinute: int := 600_000_000
  const TicksPerHour: int := 36_000_000_000

  /** The pieces of a time span, computed from its magnitude the way the formatter does. */
  datatype Parts = Parts(negative: bool, days: nat, hours: nat, minutes: nat, seconds: nat, fraction: nat)

  predicate InRange(p: Parts) {
    p.hours < 24 && p.minutes < 60 && p.seconds < 60 && p.fraction < TicksPerSecond
  }

  function SplitTicks(ticks: int): (p: Parts)
    ensures InRange(p)
  {
    var magnitude := if ticks < 0 then -ticks else ticks;
    var time := magnitude % Calendar.TicksPerDay;
    var totalSeconds := time / TicksPerSecond;
    var totalMinutes := totalSeconds / 60;
    Parts(ticks < 0, magnitude / Calendar.TicksPerDay, totalMinutes / 60, totalMinutes % 60, totalSeconds % 60, time % TicksPerSecond)
  }

  function Magnitude(p: Parts): int {
    p.days * Calendar.TicksPerDay + p.hours * TicksPerHour + p.minutes * TicksPerMinute + p.seconds * TicksPerSecond + p.fraction
  }

  /** The pieces put back together give the original tick count. */
  lemma SplitTicksExact(ticks: int)
    ensures var p := SplitTicks(ticks);
            (if p.negative then -Magnitude(p) else Magnitude(p)) == ticks
  {
    var magnitude := if ticks < 0 then -ticks else ticks;
    var time := magnitude % Calendar.TicksPerDay;
    var totalSeconds := time / TicksPerSecond;
    var totalMinutes := totalSeconds / 60;
    assert magnitude == magnitude / Calendar.TicksPerDay * Calendar.TicksPerDay + time;
    assert time == totalSeconds * TicksPerSecond + time % TicksPerSecond;
    assert totalSeconds == totalMinutes * 60 + totalSeconds % 60;
    assert totalMinutes == totalMinutes / 60 * 60 + totalMinutes % 60;
  }

  lemma Pow10Values()
    ensures Pow10(2) == 100 && Pow10(7) == 10_000_000
  {
    assert Pow10(1) == 10;
    assert Pow10(3) == 1000;
    assert Pow10(5) == 100000;
  }

  /** "d." when there are whole days, nothing otherwise. */
  function DaysField(p: Parts): string {
    if p.days != 0 then NatText(p.days) + "." else ""
  }

  /** ".fffffff" when there is a fraction of a second, nothing otherwise. */
  function FractionField(p: Parts): string
    requires InRange(p)
  {
    Pow10Values();
    if p.fraction != 0 then "." + Fixed(p.fraction, 7) else ""
  }

  function Clock(p: Parts): string
    requires InRange(p)
  {
    Pow10Values();
    Fixed(p.hours, 2) + ":" + Fixed(p.minutes, 2) + ":" + Fixed(p.seconds, 2)
  }

  /** [d.]hh:mm:ss[.fffffff] */
  function Body(p: Parts): string
    requires InRange(p)
  {
    DaysField(p) + Clock(p) + FractionField(p)
  }

  /** [-][d.]hh:mm:ss[.fffffff] */
  function TimeSpanText(ticks: int): string {
    var p := SplitTicks(ticks);
    (if p.negative then "-" else "") + Body(p)
  }

  /** Index of the first `c` in `s`, or |s| when there is none. */
  function IndexOf(s: string, c: char): (i: nat)
    ensures i <= |s|
    ensures i < |s| ==> s[i] == c
    ensures c !in s[..i]
  {
    if |s| == 0 then 0
    else if s[0] == c then 0
    else
      var k := IndexOf(s[1..], c);
      assert s[..k + 1] == [s[0]] + s[1..][..k];
      k + 1
  }

  lemma {:induction false} IndexOfAfter(a: string, b: string, c: char)
    requires c !in a
    ensures IndexOf(a + b, c) == |a| + IndexOf(b, c)
    decreases |a|
  {
    if |a| == 0 {
      assert a + b == b;
    } else {
      assert (a + b)[0] == a[0];
      assert (a + b)[1..] == a[1..] + b;
      IndexOfAfter(a[1..], b, c);
    }
  }

  /** The fields around the first colon at `k`: days before "hh", the fraction after "ss". */
  function ReadFields(body: string, k: nat): int
    requires 2 <= k && k + 6 <= |body|
  {
    var days := if k >= 3 then DigitsValue(body[..k - 3]) else 0;
    var fraction := if |body| >= k + 8 then DigitsValue(body[k + 7..]) else 0;
    days * Calendar.TicksPerDay
    + DigitsValue(body[k - 2..k]) * TicksPerHour
    + DigitsValue(body[k + 1..k + 3]) * TicksPerMinute
    + DigitsValue(body[k + 4..k + 6]) * TicksPerSecond
    + fraction
  }

  /** Reads back a rendering of the constant format without its sign. */
  function ParseBody(body: string): int {
    var k := IndexOf(body, ':');
    if k < 2 || |body| < k + 6 then 0 else ReadFields(body, k)
  }

  function ParseTimeSpan(s: string): int {
    if |s| > 0 && s[0] == '-' then -ParseBody(s[1..]) else ParseBody(s)
  }

  /** Where each field sits in a rendering without the sign. */
  lemma BodyLayout(d: string, h: string, m: string, sec: string, f: string)
    requires ':' !in d && |h| == 2 && |m| == 2 && |sec| == 2 && ':' !in h
    ensures var body := d + h + ":" + m + ":" + sec + f;
            var k := |d| + 2;
            && IndexOf(body, ':') == k
            && body[k - 2..k] == h && body[k + 1..k + 3] == m && body[k + 4..k + 6] == sec
            && body[k + 6..] == f && (k >= 3 ==> body[..k - 3] == d[..|d| - 1])
  {
    var body := d + h + ":" + m + ":" + sec + f;
    assert body == (d + h) + (":" + m + ":" + sec + f);
    IndexOfAfter(d + h, ":" + m + ":" + sec + f, ':');
  }

  lemma DaysFieldFacts(p: Parts)
    ensures var d := DaysField(p);
            && ':' !in d && ',' !in d && (|d| > 0 ==> d[0] != '-')
            && (|d| == 0 <==> p.days == 0)
            && (|d| > 0 ==> DigitsValue(d[..|d| - 1]) == p.days)
  {
    if p.days != 0 {
      NatTextRoundTrip(p.days);
      var d := DaysField(p);
      assert d[..|d| - 1] == NatText(p.days);
      assert d[0] == NatText(p.days)[0];
    }
  }

  lemma FractionFieldFacts(p: Parts)
    requires InRange(p)
    ensures var f := FractionField(p);
            && ',' !in f
            && (p.fraction == 0 ==> f == "")
            && (p.fraction != 0 ==> |f| == 8 && DigitsValue(f[1..]) == p.fraction)
  {
    Pow10Values();
    if p.fraction != 0 {
      FixedRoundTrip(p.fraction, 7);
      assert FractionField(p)[1..] == Fixed(p.fraction, 7);
    }
  }

  lemma ClockFacts(p: Parts)
    requires InRange(p)
    ensures Clock(p) == Fixed(p.hours, 2) + ":" + Fixed(p.minutes, 2) + ":" + Fixed(p.seconds, 2)
    ensures DigitsValue(Fixed(p.hours, 2)) == p.hours && AllDigits(Fixed(p.hours, 2))
    ensures DigitsValue(Fixed(p.minutes, 2)) == p.minutes && AllDigits(Fixed(p.minutes, 2))
    ensures DigitsValue(Fixed(p.seconds, 2)) == p.seconds && AllDigits(Fixed(p.seconds, 2))
    ensures ':' !in Fixed(p.hours, 2) && ',' !in Clock(p) && '0' <= Clock(p)[0] <= '9'
  {
    Pow10Values();
    FixedRoundTrip(p.hours, 2);
    FixedRoundTrip(p.minutes, 2);
    FixedRoundTrip(p.seconds, 2);
    var h := Fixed(p.hours, 2);
    var m := Fixed(p.minutes, 2);
    var sec := Fixed(p.seconds, 2);
    DigitsHoldNoSeparator(h);
    DigitsHoldNoSeparator(m);
    DigitsHoldNoSeparator(sec);
    assert Clock(p) == h + (":" + m + ":" + sec);
  }

  /** What ParseBody reads from a body laid out as the formatter lays it out. */
  lemma ParseLayout(d: string, h: string, m: string, sec: string, f: string)
    requires ':' !in d && |h| == 2 && |m| == 2 && |sec| == 2 && ':' !in h
    ensures ParseBody(d + h + ":" + m + ":" + sec + f)
         == (if |d| > 0 then DigitsValue(d[..|d| - 1]) else 0) * Calendar.TicksPerDay
            + DigitsValue(h) * TicksPerHour + DigitsValue(m) * TicksPerMinute + DigitsValue(sec) * TicksPerSecond
            + (if |f| >= 2 then DigitsValue(f[1..]) else 0)
  {
    var body := d + h + ":" + m + ":" + sec + f;
    BodyLayout(d, h, m, sec, f);
    var k := |d| + 2;
    assert ParseBody(body) == ReadFields(body, k);
    var days := if k >= 3 then DigitsValue(body[..k - 3]) else 0;
    assert days == (if |d| > 0 then DigitsValue(d[..|d| - 1]) else 0) by {
      if |d| == 1 {
        assert body[..k - 3] == [] == d[..0];
      }
    }
    var fraction := if |body| >= k + 8 then DigitsValue(body[k + 7..]) else 0;
    assert fraction == (if |f| >= 2 then DigitsValue(f[1..]) else 0) by {
      if |f| >= 2 {
        assert body[k + 7..] == f[1..];
      }
    }
  }

  /** The unsigned rendering reads back as the magnitude. */
  lemma BodyRoundTrip(p: Parts)
    requires InRange(p)
    ensures ParseBody(Body(p)) == Magnitude(p)
  {
    Pow10Values();
    var d := DaysField(p);
    var h := Fixed(p.hours, 2);
    var m := Fixed(p.minutes, 2);
    var sec := Fixed(p.seconds, 2);
    var f := FractionField(p);
    DaysFieldFacts(p);
    FractionFieldFacts(p);
    ClockFacts(p);
    assert Body(p) == d + h + ":" + m + ":" + sec + f;
    ParseLayout(d, h, m, sec, f);
    assert (if |d| > 0 then DigitsValue(d[..|d| - 1]) else 0) == p.days;
    assert (if |f| >= 2 then DigitsValue(f[1..]) else 0) == p.fraction;
  }

  /** The unsigned rendering holds no comma and does not start with a minus sign. */
  lemma BodyShape(p: Parts)
    requires InRange(p)
    ensures ',' !in Body(p) && |Body(p)| > 0 && Body(p)[0] != '-'
  {
    Pow10Values();
    var d := DaysField(p);
    var c := Clock(p);
    var f := FractionField(p);
    DaysFieldFacts(p);
    FractionFieldFacts(p);
    ClockFacts(p);
    assert Body(p) == d + c + f;
    if |d| > 0 {
      assert Body(p)[0] == d[0];
    } else {
      assert Body(p)[0] == c[0];
    }
  }

  /** TimeSpan rendering round trip: the text reads back as the same tick count. */
  lemma TimeSpanTextRoundTrip(ticks: int)
    ensures ParseTimeSpan(TimeSpanText(ticks)) == ticks
    ensures ',' !in TimeSpanText(ticks)
  {
    var p := SplitTicks(ticks);
    SplitTicksExact(ticks);
    BodyRoundTrip(p);
    BodyShape(p);
    var s := TimeSpanText(ticks);
    if p.negative {
      assert s[1..] == Body(p);
    } else {
      assert s == Body(p);
    }
  }
  // ---------------------------------------------------------------------
  // string.Join(", ", ...) and its inverse
  // ---------------------------------------------------------------------

  function Join(parts: seq<string>): string {
    if |parts| == 0 then ""
    else if |parts| == 1 then parts[0]
    else parts[0] + ", " + Join(parts[1..])
  }

  /** Cuts a text at every ", ". */
  function Split(s: string): seq<string>
    decreases |s|
  {
    var i := IndexOf(s, ',');
    if i == |s| then [s]
    else [s[..i]] + Split(s[if i + 2 <= |s| then i + 2 else |s|..])
  }

  predicate NoCommas(parts: seq<string>) {
    forall k :: 0 <= k < |parts| ==> ',' !in parts[k]
  }

  /** Join round trip: pieces without commas are recovered from the joined text. */
  lemma {:induction false} SplitJoin(parts: seq<string>)
    requires |parts| > 0 && NoCommas(parts)
    ensures Split(Join(parts)) == parts
    decreases |parts|
  {
    if |parts| == 1 {
      IndexOfAfter(parts[0], "", ',');
      assert parts[0] + "" == parts[0];
    } else {
      var rest := Join(parts[1..]);
      var s := parts[0] + ", " + rest;
      IndexOfAfter(parts[0], ", " + rest, ',');
      assert s == parts[0] + (", " + rest);
      assert s[..|parts[0]|] == parts[0];
      assert s[|parts[0]| + 2..] == rest;
      SplitJoin(parts[1..]);
    }
  }

  // ---------------------------------------------------------------------
  // ToString
  // ---------------------------------------------------------------------

  /** The time zone handed to ToString: null, TimeZoneInfo.Local, TimeZoneInfo.Utc or another zone. */
  datatype TimeZoneChoice = NoTimeZone | ServerLocal | Utc | CustomZone(displayName: string)

  /** The two joined lists the resource formatter receives. */
  datatype Description = Description(days: string, times: string)

  function IntTexts(xs: seq<int>): (r: seq<string>)
    ensures |r| == |xs| && forall k :: 0 <= k < |xs| ==> r[k] == IntText(xs[k])
  {
    if |xs| == 0 then [] else [IntText(xs[0])] + IntTexts(xs[1..])
  }

  function TimeSpanTexts(xs: seq<int>): (r: seq<string>)
    ensures |r| == |xs| && forall k :: 0 <= k < |xs| ==> r[k] == TimeSpanText(xs[k])
  {
    if |xs| == 0 then [] else [TimeSpanText(xs[0])] + TimeSpanTexts(xs[1..])
  }

  function ZoneSuffix(zone: TimeZoneChoice): string {
    match zone
    case NoTimeZone => ""
    case ServerLocal => " (server time)"
    case Utc => " (UTC)"
    case CustomZone(name) => " (" + name + ")"
  }

  /** ToString's list formatting; None stands for the null it returns. Time spans are tick counts. */
  function Describe(triggerDays: seq<int>, triggerTimes: seq<int>, zone: TimeZoneChoice): Option<Description> {
    if |triggerDays| == 0 || |triggerTimes| == 0 then None
    else Some(Description(
      Join(IntTexts(SortAscending(triggerDays))),
      Join(TimeSpanTexts(SortAscending(triggerTimes))) + ZoneSuffix(zone)))
  }

  function ParseInts(parts: seq<string>): (r: seq<int>)
    ensures |r| == |parts| && forall k :: 0 <= k < |parts| ==> r[k] == ParseInt(parts[k])
  {
    if |parts| == 0 then [] else [ParseInt(parts[0])] + ParseInts(parts[1..])
  }

  function ParseTimeSpans(parts: seq<string>): (r: seq<int>)
    ensures |r| == |parts| && forall k :: 0 <= k < |parts| ==> r[k] == ParseTimeSpan(parts[k])
  {
    if |parts| == 0 then [] else [ParseTimeSpan(parts[0])] + ParseTimeSpans(parts[1..])
  }

  /** Null exactly when either list is empty. */
  lemma DescribeNull(triggerDays: seq<int>, triggerTimes: seq<int>, zone: TimeZoneChoice)
    ensures Describe(triggerDays, triggerTimes, zone).None? <==> |triggerDays| == 0 || |triggerTimes| == 0
  {
  }

  /**
   * The days text lists every configured day, ascending, and nothing else:
   * cut at ", " and read back, it is the one ascending arrangement of TriggerDays.
   */
  lemma DescribeDays(triggerDays: seq<int>, triggerTimes: seq<int>, zone: TimeZoneChoice)
    requires |triggerDays| > 0 && |triggerTimes| > 0
    ensures var listed := ParseInts(Split(Describe(triggerDays, triggerTimes, zone).value.days));
            && Sorted(listed) && multiset(listed) == multiset(triggerDays)
  {
    var sorted := SortAscending(triggerDays);
    SortAscendingCorrect(triggerDays);
    assert |sorted| == |multiset(sorted)| == |triggerDays|;
    var parts := IntTexts(sorted);
    forall k | 0 <= k < |parts|
      ensures ',' !in parts[k] && ParseInt(parts[k]) == sorted[k]
    {
      IntTextRoundTrip(sorted[k]);
    }
    SplitJoin(parts);
    assert ParseInts(parts) == sorted;
  }

  /**
   * The times text is the listing of every configured time, ascending,
   * followed by the zone suffix: nothing for a null zone, " (server time)"
   * for the local zone, " (UTC)" for UTC and the display name in brackets
   * otherwise.
   */
  lemma DescribeTimes(triggerDays: seq<int>, triggerTimes: seq<int>, zone: TimeZoneChoice)
    requires |triggerDays| > 0 && |triggerTimes| > 0
    ensures exists listing: string ::
              var listed := ParseTimeSpans(Split(listing));
              && Describe(triggerDays, triggerTimes, zone).value.times == listing + ZoneSuffix(zone)
              && Sorted(listed) && multiset(listed) == multiset(triggerTimes)
    ensures zone == NoTimeZone ==> ZoneSuffix(zone) == ""
    ensures zone == ServerLocal ==> ZoneSuffix(zone) == " (server time)"
    ensures zone == Utc ==> ZoneSuffix(zone) == " (UTC)"
    ensures zone.CustomZone? ==> ZoneSuffix(zone) == " (" + zone.displayName + ")"
  {
    var sorted := SortAscending(triggerTimes);
    SortAscendingCorrect(triggerTimes);
    assert |sorted| == |multiset(sorted)| == |triggerTimes|;
    var parts := TimeSpanTexts(sorted);
    forall k | 0 <= k < |parts|
      ensures ',' !in parts[k] && ParseTimeSpan(parts[k]) == sorted[k]
    {
      TimeSpanTextRoundTrip(sorted[k]);
    }
    SplitJoin(parts);
    assert ParseTimeSpans(parts) == sorted;
    var listing := Join(parts);
    assert Describe(triggerDays, triggerTimes, zone).value.times == listing + ZoneSuffix(zone);
  }

  /** Example: 17:30 renders as "17:30:00". */
  lemma TimeSpanTextExample()
    ensures TimeSpanText(630_000_000_000) == "17:30:00"
  {
    assert SplitTicks(630_000_000_000) == Parts(false, 0, 17, 30, 0, 0);
  }
}
