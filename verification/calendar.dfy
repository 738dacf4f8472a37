/**
 Dates and the business-day walk of `TaskScheduler`.

 A date is its proleptic Gregorian ordinal, as Python's `date.toordinal()`
 numbers it: 0001-01-01 is day 1 and 9999-12-31, the last date `datetime`
 can hold, is day 3652059. Adding `timedelta(days=1)` is adding 1, and
 stepping past the last date raises `OverflowError`. The time of day plays no
 part in scheduling and is not modelled.
 */
module Calendar {
  import opened Outcomes

  /** The ordinal of 0001-01-01. */
  const MinOrdinal: int := 1
  /** The ordinal of 9999-12-31. */
  const MaxOrdinal: int := 3652059

  type Date = d: int | MinOrdinal <= d <= MaxOrdinal witness MinOrdinal

  /** `date.weekday()`: 0 is Monday, 6 is Sunday (0001-01-01 was a Monday). */
  function Weekday(d: int): (w: nat)
    ensures w < 7
  {
    (d - 1) % 7
  }

  lemma WeekdayShift(d: int, k: nat)
    ensures Weekday(d + k) == (Weekday(d) + k) % 7
  {
  }

  /** `calendar.day_name` in the C locale, lower-cased. */
  const DayNames: seq<string> :=
    ["monday", "tuesday", "wednesday", "thursday", "friday", "saturday", "sunday"]

  /** The lower-cased day names are distinct, end in `y`, and hold neither a space nor a `v`. */
  lemma DayNamesFacts()
    ensures forall i, j :: 0 <= i < 7 && 0 <= j < 7 && DayNames[i] == DayNames[j] ==> i == j
    ensures forall i :: 0 <= i < 7 ==> |DayNames[i]| > 0 && DayNames[i][|DayNames[i]| - 1] == 'y'
    ensures forall i :: 0 <= i < 7 ==> ' ' !in DayNames[i] && 'v' !in DayNames[i]
    ensures forall i, k :: 0 <= i < 7 && 0 <= k < |DayNames[i]| ==> 'a' <= DayNames[i][k] <= 'z'
  {
  }

  /**
   `date.day`: the day of the month of the ordinal `d`, by the civil-from-days
   conversion of the proleptic Gregorian calendar (years counted from March so
   that the leap day ends the year; 400-year eras of 146097 days).
   */
  function DayOfMonth(d: Date): (day: int)
    ensures 1 <= day <= 31
  {
    var z := d + 305;                   // days since 0000-03-01
    var era := z / 146097;
    var doe := z - era * 146097;        // day of the era, 0 .. 146096
    var yoe := (doe - doe / 1460 + doe / 36524 - doe / 146096) / 365;
    var doy := doe - (365 * yoe + yoe / 4 - yoe / 100);   // day of the March-based year
    var mp := (5 * doy + 2) / 153;      // month, 0 = March .. 11 = February
    doy - (153 * mp + 2) / 5 + 1
  }

  /** Ordinal 738900 is Monday 2024-01-15, and 738901 the Tuesday after it. */
  lemma MidJanuary2024()
    ensures Weekday(738900) == 0 && DayOfMonth(738900) == 15
    ensures Weekday(738901) == 1 && DayOfMonth(738901) == 16
  {
    // 738900 + 305 lies 8720 days into the sixth 400-year era: day 320 of
    // the March-based year 2023, which is in its eleventh month, January.
    var doe := 738900 + 305 - 5 * 146097;
    assert (738900 + 305) / 146097 == 5 && (738901 + 305) / 146097 == 5;
    assert doe == 8720;
    assert (doe - doe / 1460 + doe / 36524 - doe / 146096) / 365 == 23;
    assert (doe + 1 - (doe + 1) / 1460 + (doe + 1) / 36524 - (doe + 1) / 146096) / 365 == 23;
    var doy := doe - (365 * 23 + 23 / 4 - 23 / 100);
    assert doy == 320;
    assert (5 * doy + 2) / 153 == 10 && (5 * (doy + 1) + 2) / 153 == 10;
    assert doy - (153 * 10 + 2) / 5 + 1 == 15;
  }

  /** `is_business_day`: Monday to Friday. */
  predicate IsBusinessDay(d: int) {
    Weekday(d) < 5
  }

  /** Exactly the days not named Saturday or Sunday are business days. */
  lemma BusinessDayByName(d: int)
    ensures IsBusinessDay(d) <==> DayNames[Weekday(d)] != "saturday" && DayNames[Weekday(d)] != "sunday"
  {
    var name := DayNames[Weekday(d)];
    if IsBusinessDay(d) {
      assert name[0] != 's';
    } else {
      assert name[1] != "saturday"[1] || name[1] != "sunday"[1];
    }
  }

  /** The number of business days among the ordinals `lo .. hi - 1`. */
  function CountBusinessDays(lo: int, hi: int): nat
    decreases hi - lo
  {
    if lo >= hi then 0
    else (if IsBusinessDay(lo) then 1 else 0) + CountBusinessDays(lo + 1, hi)
  }

  lemma {:induction false} CountSplit(a: int, b: int, c: int)
    requires a <= b <= c
    ensures CountBusinessDays(a, c) == CountBusinessDays(a, b) + CountBusinessDays(b, c)
    decreases b - a
  {
    if a < b {
      CountSplit(a + 1, b, c);
    }
  }

  /** Any seven consecutive days hold exactly five business days. */
  lemma WeekHasFiveBusinessDays(d: int)
    ensures CountBusinessDays(d, d + 7) == 5
  {
    WeekCount(d);
    WeekdayShift(d, 1);
    WeekdayShift(d, 2);
    WeekdayShift(d, 3);
    WeekdayShift(d, 4);
    WeekdayShift(d, 5);
    WeekdayShift(d, 6);
  }

  /** One business-day flag, as a number. */
  function Business(d: int): (b: nat)
    ensures b == 1 <==> IsBusinessDay(d)
    ensures b <= 1
  {
    if IsBusinessDay(d) then 1 else 0
  }

  /** The count over seven days, spelled out day by day. */
  lemma WeekCount(d: int)
    ensures CountBusinessDays(d, d + 7) ==
      Business(d) + Business(d + 1) + Business(d + 2) + Business(d + 3) + Business(d + 4) + Business(d + 5) + Business(d + 6)
  {
    assert CountBusinessDays(d + 6, d + 7) == Business(d + 6);
    assert CountBusinessDays(d + 5, d + 7) == Business(d + 5) + Business(d + 6);
    assert CountBusinessDays(d + 4, d + 7) == Business(d + 4) + CountBusinessDays(d + 5, d + 7);
    assert CountBusinessDays(d + 3, d + 7) == Business(d + 3) + CountBusinessDays(d + 4, d + 7);
    assert CountBusinessDays(d + 2, d + 7) == Business(d + 2) + CountBusinessDays(d + 3, d + 7);
    assert CountBusinessDays(d + 1, d + 7) == Business(d + 1) + CountBusinessDays(d + 2, d + 7);
  }

  /** Any three consecutive days hold a business day: weekends are two days long. */
  lemma ThreeDaysHoldBusinessDay(d: int)
    ensures CountBusinessDays(d, d + 3) >= 1
  {
    assert CountBusinessDays(d + 2, d + 3) == (if IsBusinessDay(d + 2) then 1 else 0);
    assert CountBusinessDays(d + 1, d + 3) == (if IsBusinessDay(d + 1) then 1 else 0) + CountBusinessDays(d + 2, d + 3);
  }

  /** `3 * n` consecutive days hold at least `n` business days. */
  lemma {:induction false} EnoughBusinessDays(d: int, n: nat)
    ensures CountBusinessDays(d, d + 3 * n) >= n
    decreases n
  {
    if n > 0 {
      CountSplit(d, d + 3, d + 3 * n);
      ThreeDaysHoldBusinessDay(d);
      EnoughBusinessDays(d + 3, n - 1);
    }
  }

  /** Days left until the next business day: the walk's progress on a weekend. */
  function DaysToBusinessDay(d: int): nat {
    if Weekday(d) == 5 then 2 else if Weekday(d) == 6 then 1 else 0
  }

  /**
   `ds` holds business days on or after `start`, in strictly increasing
   order, and no business day between `start` and its last element is missing.
   */
  ghost predicate IsBusinessRun(start: int, ds: seq<int>) {
    && (forall i :: 0 <= i < |ds| ==> start <= ds[i] && IsBusinessDay(ds[i]))
    && (forall i, j :: 0 <= i < j < |ds| ==> ds[i] < ds[j])
    && (forall d :: start <= d && IsBusinessDay(d) && |ds| > 0 && d <= ds[|ds| - 1] ==> d in ds)
  }

  /**
   The loop of `get_next_business_days` from `current` while `need` dates are
   still missing: a business day is taken, then the date is advanced, which
   raises once it would leave 9999-12-31 behind.
   */
  function Walk(current: Date, need: nat): (r: Result<seq<Date>>)
    ensures r.Ok? ==> |r.value| == need
    ensures r.Err? ==> r.error == DateOutOfRange
    decreases need, DaysToBusinessDay(current)
  {
    if need == 0 then Ok([])
    else if current == MaxOrdinal then Err(DateOutOfRange)
    else if IsBusinessDay(current) then
      var rest :- Walk(current + 1, need - 1);
      Ok([current] + rest)
    else
      Walk(current + 1, need)
  }

  /** Taking a business day in front of a run from the next day is a run. */
  lemma RunCons(current: int, rest: seq<int>)
    requires IsBusinessDay(current) && IsBusinessRun(current + 1, rest)
    ensures IsBusinessRun(current, [current] + rest)
  {
    var ds := [current] + rest;
    forall d | current <= d && IsBusinessDay(d) && d <= ds[|ds| - 1]
      ensures d in ds
    {
      if d != current {
        assert d in rest;
      }
    }
  }

  /** A day that is not a business day can be skipped. */
  lemma RunSkip(current: int, ds: seq<int>)
    requires !IsBusinessDay(current) && IsBusinessRun(current + 1, ds)
    ensures IsBusinessRun(current, ds)
  {
  }

  /** What the walk collects is a run of consecutive business days. */
  lemma {:induction false} WalkIsBusinessRun(current: Date, need: nat)
    ensures Walk(current, need).Ok? ==> IsBusinessRun(current, Walk(current, need).value)
    decreases need, DaysToBusinessDay(current)
  {
    if need > 0 && current < MaxOrdinal {
      if IsBusinessDay(current) {
        WalkIsBusinessRun(current + 1, need - 1);
        var rest := Walk(current + 1, need - 1);
        if rest.Ok? {
          RunCons(current, rest.value);
        }
      } else {
        WalkIsBusinessRun(current + 1, need);
        if Walk(current + 1, need).Ok? {
          RunSkip(current, Walk(current + 1, need).value);
        }
      }
    }
  }

  /** The walk fails exactly when fewer than `need` business days precede 9999-12-31. */
  lemma {:induction false} WalkFailsIff(current: Date, need: nat)
    ensures Walk(current, need).Err? <==> need > 0 && CountBusinessDays(current, MaxOrdinal) < need
    decreases need, DaysToBusinessDay(current)
  {
    if need > 0 && current < MaxOrdinal {
      if IsBusinessDay(current) {
        WalkFailsIff(current + 1, need - 1);
      } else {
        WalkFailsIff(current + 1, need);
      }
    }
  }

  /**
   `get_next_business_days(start_date, num_days)`: the first `num_days`
   business days on or after `start_date`; a count of zero or less gives the
   empty list. It raises when the walk would step past 9999-12-31, which it
   does even after collecting the last date if that date is 9999-12-31.
   */
  function GetNextBusinessDays(start: Date, numDays: int): (r: Result<seq<Date>>)
    ensures numDays <= 0 ==> r == Ok([])
    ensures r.Ok? ==> |r.value| == (if numDays <= 0 then 0 else numDays)
    ensures r.Ok? ==> IsBusinessRun(start, r.value)
    ensures r.Ok? && numDays > 0 && IsBusinessDay(start) ==> r.value[0] == start
    ensures r.Err? <==> numDays > 0 && CountBusinessDays(start, MaxOrdinal) < numDays
    ensures r.Err? ==> r.error == DateOutOfRange
  {
    var need := if numDays <= 0 then 0 else numDays;
    WalkIsBusinessRun(start, need);
    WalkFailsIff(start, need);
    var r := Walk(start, need);
    assert r.Ok? && need > 0 && IsBusinessDay(start) ==> r.value[0] == start by {
      if r.Ok? && need > 0 && IsBusinessDay(start) {
        assert start in r.value;
      }
    }
    r
  }

  /** A run never starts after the first day of another run from the same start. */
  lemma RunHeadFirst(start: int, ds: seq<int>, es: seq<int>)
    requires IsBusinessRun(start, ds) && IsBusinessRun(start, es) && |ds| > 0 && |es| > 0
    ensures ds[0] <= es[0]
  {
  }

  /** After its first day, a run continues as a run from the day after. */
  lemma RunTail(start: int, ds: seq<int>)
    requires IsBusinessRun(start, ds) && |ds| > 0
    ensures IsBusinessRun(ds[0] + 1, ds[1..])
  {
    var tail := ds[1..];
    forall d | ds[0] + 1 <= d && IsBusinessDay(d) && |tail| > 0 && d <= tail[|tail| - 1]
      ensures d in tail
    {
      assert d in ds;
      var k :| 0 <= k < |ds| && ds[k] == d;
      assert tail[k - 1] == d;
    }
  }

  lemma SameHeadSameTail(ds: seq<int>, es: seq<int>)
    requires |ds| > 0 && |es| > 0 && ds[0] == es[0] && ds[1..] == es[1..]
    ensures ds == es
  {
    assert ds == [ds[0]] + ds[1..];
    assert es == [es[0]] + es[1..];
  }

  /** Two runs of business days from the same start and of the same length are equal. */
  lemma {:induction false} BusinessRunUnique(start: int, ds: seq<int>, es: seq<int>)
    requires IsBusinessRun(start, ds) && IsBusinessRun(start, es) && |ds| == |es|
    ensures ds == es
    decreases |ds|
  {
    if |ds| > 0 {
      RunHeadFirst(start, ds, es);
      RunHeadFirst(start, es, ds);
      RunTail(start, ds);
      RunTail(start, es);
      BusinessRunUnique(ds[0] + 1, ds[1..], es[1..]);
      SameHeadSameTail(ds, es);
    }
  }

  /**
   So the walk's answer is THE first `n` business days: any other run of `n`
   business days from `start` that skips none is the same list.
   */
  lemma NextBusinessDaysAreTheFirst(start: Date, n: nat, ds: seq<int>)
    requires GetNextBusinessDays(start, n).Ok?
    requires IsBusinessRun(start, ds) && |ds| == n
    ensures GetNextBusinessDays(start, n).value == ds
  {
    BusinessRunUnique(start, GetNextBusinessDays(start, n).value, ds);
  }

  /** The walk cannot fail when three days per requested date remain before 9999-12-31. */
  lemma WalkHasRoom(start: Date, n: nat)
    requires start + 3 * n <= MaxOrdinal
    ensures GetNextBusinessDays(start, n).Ok?
  {
    EnoughBusinessDays(start, n);
    CountSplit(start, start + 3 * n, MaxOrdinal);
  }

  /** The outcome of a loop that has collected `days` and then walks on to `rest`. */
  function Prepend(days: seq<Date>, rest: Result<seq<Date>>): Result<seq<Date>> {
    match rest
    case Ok(more) => Ok(days + more)
    case Err(e) => Err(e)
  }

  /** `get_next_business_days` as the `while` loop of `task_scheduler.py`. */
  method NextBusinessDaysLoop(start: Date, numDays: int) returns (r: Result<seq<Date>>)
    ensures r == GetNextBusinessDays(start, numDays)
  {
    var days: seq<Date> := [];
    var current: Date := start;
    if numDays > 0 {
      ghost var w := Walk(start, numDays);
      if w.Ok? {
        assert days + w.value == w.value;
      }
    }
    while |days| < numDays
      invariant numDays > 0 ==> |days| <= numDays
      invariant numDays <= 0 ==> days == []
      invariant numDays > 0 ==> Walk(start, numDays) == Prepend(days, Walk(current, numDays - |days|))
      decreases numDays - |days|, DaysToBusinessDay(current)
    {
      ghost var need := numDays - |days|;
      if IsBusinessDay(current) {
        if current < MaxOrdinal {
          ghost var w := Walk(current + 1, need - 1);
          if w.Ok? {
            assert days + ([current] + w.value) == (days + [current]) + w.value;
          }
        }
        days := days + [current];
      }
      if current == MaxOrdinal {
        return Err(DateOutOfRange);
      }
      current := current + 1;
    }
    assert days + [] == days;
    r := Ok(days);
  }
}
