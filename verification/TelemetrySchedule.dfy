/** Interval arithmetic of the tracked-repeater telemetry scheduler. Times are Unix seconds in UTC. */
module TelemetrySchedule {
  import opened Common

  const DAILY_CHECK_CEILING := 24
  const DEFAULT_INTERVAL := 8
  const INTERVAL_OPTIONS := {1, 2, 3, 4, 6, 8, 12, 24}

  function ShortestLegalInterval(tracked: int): (hours: int)
  {
    if tracked <= 0 then DEFAULT_INTERVAL
    else
      var cyclesPerDay := DAILY_CHECK_CEILING / tracked;
      if cyclesPerDay <= 0 then 24 else 24 / cyclesPerDay
  }

  function ClampInterval(preferred: int, tracked: int): (hours: int)
  {
    var p := if preferred in INTERVAL_OPTIONS then preferred else DEFAULT_INTERVAL;
    var shortest := ShortestLegalInterval(tracked);
    if p > shortest then p else shortest
  }

  /** Each of the divisors of 24 that the arithmetic can produce. */
  lemma ShortestByCount(tracked: int)
    requires 1 <= tracked <= 24
    ensures ShortestLegalInterval(tracked) ==
      if tracked == 1 then 1 else if tracked == 2 then 2 else if tracked == 3 then 3 else if tracked == 4 then 4
      else if tracked <= 6 then 6 else if tracked <= 8 then 8 else if tracked <= 12 then 12 else 24
  {
    var c := 24 / tracked;
    assert c * tracked <= 24 < (c + 1) * tracked;
    assert tracked > 12 ==> c == 1;
    assert 8 < tracked <= 12 ==> c == 2;
    assert 6 < tracked <= 8 ==> c == 3;
    assert 4 < tracked <= 6 ==> c == 4;
  }

  /** The effective interval is one of the menu's values, all of which divide the day. */
  lemma EffectiveIntervalDividesTheDay(preferred: int, tracked: int)
    requires tracked <= 24
    ensures ClampInterval(preferred, tracked) in INTERVAL_OPTIONS && 24 % ClampInterval(preferred, tracked) == 0
    ensures tracked >= 1 ==> tracked * (24 / ClampInterval(preferred, tracked)) <= DAILY_CHECK_CEILING
  {
    if tracked >= 1 {
      ShortestByCount(tracked);
    }
  }

  /** The effective interval is the shortest menu value that honours the preference and keeps within the ceiling. */
  lemma EffectiveIntervalIsTheShortestLegal(preferred: int, tracked: int, h: int)
    requires 1 <= tracked <= 24
    requires h in {1, 2, 3, 4, 6, 8, 12, 24} && tracked * (24 / h) <= 24
    requires h >= if preferred in {1, 2, 3, 4, 6, 8, 12, 24} then preferred else 8
    ensures h >= ClampInterval(preferred, tracked) >=
      if preferred in {1, 2, 3, 4, 6, 8, 12, 24} then preferred else 8
  {
    ShortestByCount(tracked);
  }

  /** Outside 1 to 24 targets: the default of 8 hours is the floor for an empty list, a day for a longer one. */
  lemma EffectiveIntervalOutside(preferred: int, tracked: int)
    ensures tracked <= 0 ==> ClampInterval(preferred, tracked) == if preferred in {12, 24} then preferred else 8
    ensures tracked > 24 ==> ClampInterval(preferred, tracked) == 24
  {
    if tracked > 24 {
      assert 24 / tracked == 0;
    }
  }

  /** Checks made at hours h, h+1, ..., h+n-1 when the gate fires on hours of day divisible by the interval. */
  function ChecksIn(interval: int, tracked: nat, h: nat, n: nat): nat
    requires interval > 0
  {
    if n == 0 then 0
    else (if HourFires(h + n - 1, interval) then tracked else 0) + ChecksIn(interval, tracked, h, n - 1)
  }

  lemma {:induction false} ChecksSplit(interval: int, tracked: nat, h: nat, n: nat, m: nat)
    requires interval > 0
    ensures ChecksIn(interval, tracked, h, n + m) ==
      ChecksIn(interval, tracked, h, n) + ChecksIn(interval, tracked, h + n, m)
  {
    if m > 0 {
      ChecksSplit(interval, tracked, h, n, m - 1);
    }
  }

  lemma {:induction false} ChecksNextDay(interval: int, tracked: nat, h: nat, n: nat)
    requires interval > 0
    ensures ChecksIn(interval, tracked, h + 24, n) == ChecksIn(interval, tracked, h, n)
  {
    if n > 0 {
      ChecksNextDay(interval, tracked, h, n - 1);
      var x := h + n - 1;
      DivModUnique(x + 24, 24, x / 24 + 1, x % 24);
    }
  }

  lemma Distribute(k: int, a: int, b: int)
    ensures k * (a + b) == k * a + k * b
  {
  }

  lemma {:induction false} ChecksScale(interval: int, tracked: nat, h: nat, n: nat)
    requires interval > 0
    ensures ChecksIn(interval, tracked, h, n) == tracked * ChecksIn(interval, 1, h, n)
  {
    if n > 0 {
      ChecksScale(interval, tracked, h, n - 1);
      Distribute(tracked, 1, ChecksIn(interval, 1, h, n - 1));
    }
  }

  function StartedBlocks(q: nat, r: nat): nat
  {
    if r > 0 then q + 1 else q
  }

  /** The first n hours of the day, q whole blocks of interval hours and r more: one firing per started block. */
  lemma {:induction false} FiringsFromMidnight(interval: int, n: nat, q: nat, r: nat)
    requires 0 <= r < interval && n == q * interval + r && n <= 24
    ensures ChecksIn(interval, 1, 0, n) == StartedBlocks(q, r)
    decreases n
  {
    if n > 0 {
      HourBefore(interval, n, q, r);
      if r > 0 {
        FiringsFromMidnight(interval, n - 1, q, r - 1);
      } else {
        FiringsFromMidnight(interval, n - 1, q - 1, interval - 1);
      }
    }
  }

  /** The hour before position (q, r) of the day, and whether the gate fires on it. */
  lemma HourBefore(interval: int, n: nat, q: nat, r: nat)
    requires 0 <= r < interval && n == q * interval + r && 0 < n <= 24
    ensures r == 0 ==> q > 0 && n - 1 == (q - 1) * interval + (interval - 1)
    ensures (n - 1) % 24 % interval == if r > 0 then r - 1 else interval - 1
  {
    if r > 0 {
      DivModUnique(n - 1, interval, q, r - 1);
    } else {
      assert (q - 1) * interval == q * interval - interval;
      DivModUnique(n - 1, interval, q - 1, interval - 1);
    }
  }

  lemma ChecksFromMidnight(interval: int, tracked: nat, q: nat)
    requires interval > 0 && q * interval == 24
    ensures ChecksIn(interval, tracked, 0, 24) == tracked * q
  {
    FiringsFromMidnight(interval, 24, q, 0);
    ChecksScale(interval, tracked, 0, 24);
  }

  /** Any 24 consecutive hours see the same number of checks as a calendar day. */
  lemma {:induction false} ChecksAnyDay(interval: int, tracked: nat, h: nat)
    requires interval > 0
    ensures ChecksIn(interval, tracked, h, 24) == ChecksIn(interval, tracked, 0, 24)
  {
    if h > 0 {
      ChecksAnyDay(interval, tracked, h - 1);
      ChecksSplit(interval, tracked, h - 1, 1, 24);
      ChecksSplit(interval, tracked, h - 1, 24, 1);
      ChecksNextDay(interval, tracked, h - 1, 1);
    }
  }

  lemma OneDayMore(days: int, perDay: int)
    ensures days * perDay == (days - 1) * perDay + perDay
  {
  }

  lemma {:induction false} ChecksManyDays(interval: int, tracked: nat, h: nat, days: nat)
    requires interval > 0
    ensures ChecksIn(interval, tracked, h, 24 * days) == days * ChecksIn(interval, tracked, 0, 24)
  {
    if days > 0 {
      ChecksManyDays(interval, tracked, h, days - 1);
      ChecksSplit(interval, tracked, h, 24 * (days - 1), 24);
      ChecksAnyDay(interval, tracked, h + 24 * (days - 1));
      OneDayMore(days, ChecksIn(interval, tracked, 0, 24));
    }
  }

  // ---------------------------------------------------------------------------------------------
  // The gate over settings that may change every hour

  /** What one list's gate reads at an hourly evaluation: the stored preference and the length of the list. */
  datatype Reading = Reading(preferred: int, tracked: nat)

  function IntervalOf(s: Reading): (e: int)
    ensures e > 0
  {
    ClampInterval(s.preferred, s.tracked)
  }

  /** Checks the evaluation at hour t makes. */
  function ChecksAt(s: Reading, t: nat): nat
  {
    if s.tracked > 0 && HourFires(t, IntervalOf(s)) then s.tracked else 0
  }

  /** Checks made at hours h, h+1, ..., h+n-1, reading the settings afresh at each. */
  function ChecksRead(at: nat -> Reading, h: nat, n: nat): nat
  {
    if n == 0 then 0 else ChecksAt(at(h + n - 1), h + n - 1) + ChecksRead(at, h, n - 1)
  }

  /** The longest list with an effective interval, among lists of at most cap targets. */
  function Longest(e: int, cap: nat): nat
  {
    if 0 <= e < cap then e else cap
  }

  /** The most an hour can cost at an effective interval, for lists of at most cap targets. */
  function HourCost(e: int, cap: nat, t: nat): nat
    requires e > 0
  {
    if HourFires(t, e) then Longest(e, cap) else 0
  }

  function Cost(intervals: nat -> int, cap: nat, h: nat, n: nat): nat
    requires forall t: nat :: intervals(t) > 0
  {
    if n == 0 then 0 else HourCost(intervals(h + n - 1), cap, h + n - 1) + Cost(intervals, cap, h, n - 1)
  }

  /** These readings have at most cap targets and, where there are any, these effective intervals. */
  ghost predicate Fits(at: nat -> Reading, intervals: nat -> int, cap: nat, h: nat, n: nat)
  {
    forall t: nat :: h <= t < h + n ==>
      at(t).tracked <= cap && (at(t).tracked > 0 ==> IntervalOf(at(t)) == intervals(t))
  }

  /** A list never has more targets than its effective interval has hours. */
  lemma TargetsWithinInterval(s: Reading)
    requires 1 <= s.tracked <= 24
    ensures s.tracked <= IntervalOf(s)
  {
    ShortestByCount(s.tracked);
  }

  lemma {:induction false} ChecksWithinCost(at: nat -> Reading, intervals: nat -> int, cap: nat, h: nat, n: nat)
    requires (forall t: nat :: intervals(t) > 0) && cap <= 24 && Fits(at, intervals, cap, h, n)
    ensures ChecksRead(at, h, n) <= Cost(intervals, cap, h, n)
  {
    if n > 0 {
      ChecksWithinCost(at, intervals, cap, h, n - 1);
      var last := at(h + n - 1);
      if last.tracked > 0 {
        TargetsWithinInterval(last);
      }
    }
  }

  /** A list as long as the interval, or the cap, has that effective interval. */
  lemma IntervalOfFullList(e: int, cap: nat)
    requires e in INTERVAL_OPTIONS && 1 <= cap <= 24
    ensures IntervalOf(Reading(e, Longest(e, cap))) == e
  {
    ShortestByCount(Longest(e, cap));
  }

  function FullLists(intervals: nat -> int, cap: nat): nat -> Reading
  {
    (t: nat) => Reading(intervals(t), Longest(intervals(t), cap))
  }

  lemma {:induction false} FullListsCost(intervals: nat -> int, cap: nat, h: nat, n: nat)
    requires (forall t: nat :: intervals(t) in INTERVAL_OPTIONS) && 1 <= cap <= 24
    ensures Fits(FullLists(intervals, cap), intervals, cap, h, n)
    ensures ChecksRead(FullLists(intervals, cap), h, n) == Cost(intervals, cap, h, n)
  {
    forall t: nat
      ensures IntervalOf(FullLists(intervals, cap)(t)) == intervals(t)
    {
      IntervalOfFullList(intervals(t), cap);
    }
    if n > 0 {
      FullListsCost(intervals, cap, h, n - 1);
    }
  }

  /**
   The exact condition: a history of effective intervals keeps every list history it allows within a
   bound, however the lists are edited, if and only if its cost does.
   */
  lemma WithinBoundExactly(intervals: nat -> int, cap: nat, h: nat, n: nat, bound: nat)
    requires (forall t: nat :: intervals(t) in INTERVAL_OPTIONS) && 1 <= cap <= 24
    ensures (forall at: nat -> Reading :: Fits(at, intervals, cap, h, n) ==> ChecksRead(at, h, n) <= bound) <==>
      Cost(intervals, cap, h, n) <= bound
  {
    FullListsCost(intervals, cap, h, n);
    forall at: nat -> Reading | Fits(at, intervals, cap, h, n)
      ensures ChecksRead(at, h, n) <= Cost(intervals, cap, h, n)
    {
      ChecksWithinCost(at, intervals, cap, h, n);
    }
  }

  lemma {:induction false} SteadyCost(e: int, cap: nat, h: nat, n: nat)
    requires e > 0
    ensures Cost(_ => e, cap, h, n) <= ChecksIn(e, e, h, n)
  {
    if n > 0 {
      SteadyCost(e, cap, h, n - 1);
    }
  }

  lemma OptionsDivideTheDay(e: int)
    requires e in INTERVAL_OPTIONS
    ensures 24 / e * e == 24 && e * (24 / e) == 24 && 24 / e >= 1
  {
  }

  lemma SteadyDay(e: int)
    requires e in INTERVAL_OPTIONS
    ensures ChecksIn(e, e, 0, 24) == 24
  {
    OptionsDivideTheDay(e);
    var q := 24 / e;
    ChecksFromMidnight(e, e, q);
  }

  /** As long as the effective interval stays the same, no edit of the list or preference exceeds the ceiling. */
  lemma SteadyIntervalKeepsCeiling(at: nat -> Reading, e: int, h: nat, days: nat)
    requires e in INTERVAL_OPTIONS && Fits(at, _ => e, 24, h, 24 * days)
    ensures ChecksRead(at, h, 24 * days) <= 24 * days
  {
    ChecksWithinCost(at, _ => e, 24, h, 24 * days);
    SteadyCost(e, 24, h, 24 * days);
    ChecksManyDays(e, e, h, days);
    SteadyDay(e);
  }

  /**
   In particular, with fixed settings: over any number of days, from any starting hour and for any stored
   preference, a list of at most 24 targets is never checked more than 24 times a day.
   */
  lemma DailyCeilingHolds(preferred: int, tracked: nat, h: nat, days: nat)
    requires tracked <= 24
    ensures ChecksRead(_ => Reading(preferred, tracked), h, 24 * days) <= 24 * days
  {
    EffectiveIntervalDividesTheDay(preferred, tracked);
    SteadyIntervalKeepsCeiling(_ => Reading(preferred, tracked), ClampInterval(preferred, tracked), h, days);
  }

  /** Eight targets at midnight, cut to one before one o'clock, with the shortest preference. */
  function CutAfterMidnight(): nat -> Reading
  {
    t => Reading(1, if t % 24 == 0 then 8 else 1)
  }

  /** A changed interval does exceed it, within the list limit of 8: that day makes 31 checks. */
  lemma EditedListExceedsTheCeiling()
    ensures forall t: nat :: CutAfterMidnight()(t).tracked <= 8
    ensures ChecksRead(CutAfterMidnight(), 0, 24) == 31
  {
    AfterTheCut(23);
    ShortestByCount(8);
  }

  lemma {:induction false} AfterTheCut(n: nat)
    requires n < 24
    ensures ChecksRead(CutAfterMidnight(), 0, n + 1) == 8 + n
  {
    ShortestByCount(1);
    ShortestByCount(8);
    if n > 0 {
      AfterTheCut(n - 1);
    }
  }

  /** Beyond 24 targets one round a day is still made, so the ceiling is exceeded: 24 is exact. */
  lemma CeilingExceededBeyond24(preferred: int, tracked: nat, h: nat)
    requires tracked > 24
    ensures ClampInterval(preferred, tracked) == 24
    ensures ChecksIn(24, tracked, h, 24) == tracked > DAILY_CHECK_CEILING
  {
    assert DAILY_CHECK_CEILING / tracked == 0;
    ChecksAnyDay(24, tracked, h);
    ChecksFromMidnight(24, tracked, 1);
  }

  // ---------------------------------------------------------------------------------------------
  // Next run

  /** The gate, for an hour counted from the epoch. */
  predicate HourFires(hour: int, interval: int)
    requires interval > 0
  {
    hour % 24 % interval == 0
  }

  /** A top of hour at which the gate fires. */
  predicate Fires(t: int, interval: int)
    requires interval > 0
  {
    t % 3600 == 0 && HourFires(t / 3600, interval)
  }

  /** Interval the source uses: non-positive values fall back to the default. */
  function Effective(interval: int): (e: int)
    ensures e > 0
  {
    if interval <= 0 then DEFAULT_INTERVAL else interval
  }

  ghost predicate NothingFires(after: int, before: int, interval: int)
    requires interval > 0
  {
    forall t :: after < t < before ==> !Fires(t, interval)
  }

  /** The first firing top of hour strictly after now; the search ends by midnight at the latest. */
  method NextRunTimestamp(interval: int, now: int) returns (at: int)
    ensures at > now && Fires(at, Effective(interval))
    ensures NothingFires(now, at, Effective(interval))
    ensures at % 3600 == 0 && at / 3600 % 24 % (if interval <= 0 then 8 else interval) == 0
    ensures forall t :: now < t < at ==>
      !(t % 3600 == 0 && t / 3600 % 24 % (if interval <= 0 then 8 else interval) == 0)
  {
    var hours := Effective(interval);
    var hour := now / 3600 + 1;
    NoTopOfHourBefore(now, hour);
    while !HourFires(hour, hours)
      invariant hour * 3600 > now && NothingFires(now, hour * 3600, hours)
      decreases HoursToMidnight(hour)
    {
      NextHour(hour, hours);
      HourPassed(now, hour, hours);
      hour := hour + 1;
    }
    TopOfHour(hour);
    at := hour * 3600;
    forall t | now < t < at
      ensures !(t % 3600 == 0 && t / 3600 % 24 % hours == 0)
    {
      assert !Fires(t, hours);
    }
  }

  lemma TopOfHour(hour: int)
    ensures hour * 3600 % 3600 == 0 && hour * 3600 / 3600 == hour
  {
    DivModUnique(hour * 3600, 3600, hour, 0);
  }

  /** An hour that does not fire extends the stretch in which nothing does. */
  lemma HourPassed(now: int, hour: int, hours: int)
    requires hours > 0 && !HourFires(hour, hours) && NothingFires(now, hour * 3600, hours)
    ensures NothingFires(now, (hour + 1) * 3600, hours)
  {
    TopOfHour(hour);
    OnlyTopsOfHour(hour);
  }

  function HoursToMidnight(hour: int): nat
  {
    if hour % 24 == 0 then 0 else 24 - hour % 24
  }

  lemma NextHour(hour: int, hours: int)
    requires hours > 0 && !HourFires(hour, hours)
    ensures HoursToMidnight(hour + 1) < HoursToMidnight(hour)
  {
    if hour % 24 == 0 {
      MidnightFires(hour, hours);
      assert false;
    }
    OneHourOn(hour);
  }

  lemma MidnightFires(hour: int, hours: int)
    requires hours > 0 && hour % 24 == 0
    ensures HourFires(hour, hours)
  {
  }

  lemma OneHourOn(hour: int)
    requires hour % 24 != 0
    ensures HoursToMidnight(hour + 1) == HoursToMidnight(hour) - 1
  {
  }

  /** Strictly between two tops of hour there is none. */
  lemma OnlyTopsOfHour(hour: int)
    ensures forall t :: hour * 3600 < t < (hour + 1) * 3600 ==> t % 3600 != 0
  {
    forall t | hour * 3600 < t < (hour + 1) * 3600
      ensures t % 3600 != 0
    {
      DivModUnique(t, 3600, hour, t - hour * 3600);
    }
  }

  lemma NoTopOfHourBefore(now: int, hour: int)
    requires hour == now / 3600 + 1
    ensures hour * 3600 > now
    ensures forall t :: now < t < hour * 3600 ==> t % 3600 != 0
  {
    OnlyTopsOfHour(hour - 1);
  }
}
