/**
 Expansion of a recurring VEVENT (RFC 5545 section 3.3.10, the subset the firmware
 implements): ExpandRecurringEvent of the ICS stream parser with its helpers
 NormalizeDate and AdvanceMonth.

 The C loop walks one period (day, week, month or year) at a time from the base
 event's date. Each period yields up to 32 candidate midnights, which are sorted,
 cut down by BYSETPOS and emitted in order while the instance budget (COUNT, at
 most 500) lasts and the end (the window end or UNTIL) is not passed. A candidate
 on an excluded date still uses up one instance of the budget.

 The loop is modelled with a fuel bound on the number of periods; running out of
 fuel is the `Unfinished` outcome, and a MONTHLY rule whose BYMONTH the interval
 never reaches is shown to be `Unfinished` for every fuel, because the C code's
 `continue` skips the loop's only other exit test. A month that wraps to 0 in
 `unsigned` (an INTERVAL near 2^32) indexes the month table out of bounds in C;
 that is the `MonthOutOfRange` outcome.

 The C code finds the weekday of the week start with its unsigned Zeller copy
 (Weekdays.DayOfWeekAsWritten); the model uses the true weekday (Weekdays.DayOfWeek).
 */
module IcsExpand {
  import opened Wrappers
  import opened Machine
  import Civil
  import Timestamp
  import Weekdays
  import opened IcsRRule
  import opened Events

  /** The safety limit on instances when COUNT does not lower it. */
  const MAX_INSTANCES: int := 500
  /** Size of the per-period candidate array. */
  const MAX_CANDIDATES: nat := 32
  const SECONDS_PER_DAY: int := 86400

  /** An unsigned (year, month, day) triple as the C code keeps it. */
  datatype Day = Day(year: u32, month: u32, day: u32)

  // ---------------------------------------------------------------------------
  // NormalizeDate and AdvanceMonth
  // ---------------------------------------------------------------------------

  /** The first loop of NormalizeDate: carry whole months while the day is past the month's end. */
  function NormalizeForward(year: u32, month: u32, day: u32): (r: Day)
    requires 1 <= month <= 12
    ensures 1 <= r.month <= 12
    ensures day >= 1 ==> 1 <= r.day <= Civil.DaysInMonth(r.year, r.month)
    ensures day == 0 ==> r == Day(year, month, 0)
    decreases day
  {
    var dim := Civil.DaysInMonth(year, month);
    if day > dim then
      if month + 1 > 12 then NormalizeForward(U32(year + 1), 1, day - dim)
      else NormalizeForward(year, month + 1, day - dim)
    else Day(year, month, day)
  }

  /**
   NormalizeDate: the first loop, then the second, which only runs for day 0 (the
   day is unsigned) and then steps back to the last day of the previous month.
   */
  function NormalizeDate(year: u32, month: u32, day: u32): (r: Day)
    requires 1 <= month <= 12
    ensures 1 <= r.month <= 12 && 1 <= r.day <= Civil.DaysInMonth(r.year, r.month)
  {
    var f := NormalizeForward(year, month, day);
    if f.day < 1 then
      var prev := if f.month - 1 < 1 then Day(U32(f.year - 1), 12, 0) else Day(f.year, f.month - 1, 0);
      Day(prev.year, prev.month, Civil.DaysInMonth(prev.year, prev.month))
    else f
  }

  /** Day number of a (possibly unnormalised) triple: the first of its month plus day - 1. */
  function DayNumber(d: Day): int
    requires 1 <= d.month <= 12
  {
    Civil.DaysFromCivil(Civil.Date(d.year, d.month, d.day))
  }

  /** The first loop keeps the day number, as long as the year does not wrap. */
  lemma {:induction false} NormalizeForwardKeepsDay(year: u32, month: u32, day: u32)
    requires 1 <= month <= 12 && year + day < TWO32
    ensures DayNumber(NormalizeForward(year, month, day)) == DayNumber(Day(year, month, day))
    decreases day
  {
    var dim := Civil.DaysInMonth(year, month);
    if day > dim {
      Civil.NextMonthStart(year, month);
      if month + 1 > 12 {
        assert U32(year + 1) == year + 1;
        NormalizeForwardKeepsDay(year + 1, 1, day - dim);
      } else {
        NormalizeForwardKeepsDay(year, month + 1, day - dim);
      }
    }
  }

  /**
   NormalizeDate gives a valid date with the same day number as "day `day` of the
   month", counting day 0 as the last day of the previous month. The year must not
   wrap: it stays below 2^32 going forward and, for day 0 of January, above 0.
   */
  lemma {:induction false} NormalizeDateSpec(year: u32, month: u32, day: u32)
    requires 1 <= month <= 12 && year + day < TWO32
    requires day == 0 && month == 1 ==> year >= 1
    ensures var r := NormalizeDate(year, month, day);
      Civil.ValidDate(Civil.Date(r.year, r.month, r.day))
      && DayNumber(r) == DayNumber(Day(year, month, day))
  {
    NormalizeForwardKeepsDay(year, month, day);
    if day == 0 {
      if month == 1 {
        Civil.NextMonthStart(year - 1, 12);
      } else {
        Civil.NextMonthStart(year, month - 1);
      }
    }
  }

  /** The loop of AdvanceMonth: take away twelve months and add a year while the month is past 12. */
  function MonthsOver(year: u32, month: u32): (r: (u32, u32))
    ensures r.1 <= 12
    ensures month >= 1 ==> r.1 >= 1
    decreases month
  {
    if month > 12 then MonthsOver(U32(year + 1), month - 12) else (year, month)
  }

  /** AdvanceMonth: add the interval to the month in `unsigned`, then carry into the year. */
  function AdvanceMonth(year: u32, month: u32, interval: u32): (r: (u32, u32))
    ensures r.1 <= 12
  {
    MonthsOver(year, U32(month + interval))
  }

  lemma {:induction false} MonthsOverCounts(year: u32, month: u32)
    requires month >= 1 && year + month / 12 < TWO32
    ensures var (y, m) := MonthsOver(year, month);
      1 <= m <= 12 && 12 * y + m == 12 * year + month && m == (month - 1) % 12 + 1
    decreases month
  {
    if month > 12 {
      assert U32(year + 1) == year + 1;
      MonthsOverCounts(year + 1, month - 12);
    }
  }

  /**
   Without a wrap, AdvanceMonth moves `interval` months forward: the month stays in
   1..12 and 12 * year + month grows by exactly the interval.
   */
  lemma {:induction false} AdvanceMonthAdds(year: u32, month: u32, interval: u32)
    requires 1 <= month <= 12 && month + interval < TWO32
    requires year + (month + interval) / 12 < TWO32
    ensures var (y, m) := AdvanceMonth(year, month, interval);
      1 <= m <= 12 && 12 * y + m == 12 * year + month + interval
  {
    MonthsOverCounts(year, month + interval);
  }

  /** An interval of whole years leaves the month where it was. */
  lemma {:induction false} AdvanceWholeYears(year: u32, month: u32, interval: u32)
    requires 1 <= month <= 12 && month + interval < TWO32 && interval % 12 == 0
    ensures AdvanceMonth(year, month, interval).1 == month
  {
    MonthsOverMonth(year, month + interval);
    assert (month + interval - 1) % 12 == month - 1;
  }

  lemma {:induction false} MonthsOverMonth(year: u32, month: u32)
    requires month >= 1
    ensures MonthsOver(year, month).1 == (month - 1) % 12 + 1
    decreases month
  {
    if month > 12 {
      MonthsOverMonth(U32(year + 1), month - 12);
    }
  }

  /** An interval of 2^32 - 1 wraps January to month 0, which the month table cannot index. */
  lemma {:induction false} AdvanceMonthWraps(year: u32)
    ensures AdvanceMonth(year, 1, TWO32 - 1).1 == 0
  {
    assert U32(1 + (TWO32 - 1)) == 0;
  }

  // ---------------------------------------------------------------------------
  // The expansion's fixed data
  // ---------------------------------------------------------------------------

  /** What ExpandRecurringEvent computes once, before its loop. */
  datatype Plan = Plan(
    base: CalendarEvent,
    rule: RRule,
    exdates: seq<u32>,
    windowStart: u32,
    baseYear: u32,
    baseMonth: u32,
    baseDay: u32,
    timeOfDay: u32,
    duration: u32,
    endTs: u32,
    maxInstances: int)

  predicate PlanWf(p: Plan) {
    && Wf(p.rule)
    && 1 <= p.baseMonth <= 12 && 1 <= p.baseDay <= Civil.DaysInMonth(p.baseYear, p.baseMonth)
    && p.timeOfDay == p.base.startTime % SECONDS_PER_DAY
    && 1 <= p.maxInstances <= MAX_INSTANCES
  }

  /**
   The set-up of ExpandRecurringEvent: the base date, the time of day and duration
   (unsigned, so an end before the start wraps), the end of the expansion (the
   window end, or UNTIL when it is set and earlier) and the instance budget (500, or
   COUNT when it is positive and smaller).
   */
  function MakePlan(base: CalendarEvent, rule: RRule, exdates: seq<u32>, windowStart: u32, windowEnd: u32): (p: Plan)
    requires Wf(rule)
    ensures PlanWf(p)
    ensures p.endTs <= windowEnd && (rule.until > 0 ==> p.endTs <= rule.until)
    ensures p.endTs == windowEnd || p.endTs == rule.until
    ensures p.maxInstances <= MAX_INSTANCES && (rule.count > 0 ==> p.maxInstances <= rule.count)
    ensures p.maxInstances == MAX_INSTANCES || p.maxInstances == rule.count
    ensures p.duration == U32(base.endTime - base.startTime)
    ensures p.base == base && p.rule == rule && p.exdates == exdates && p.windowStart == windowStart
  {
    Timestamp.TimestampToDateValid(base.startTime);
    var d := Timestamp.TimestampToDate(base.startTime);
    var endTs := if rule.until > 0 && rule.until < windowEnd then rule.until else windowEnd;
    var maxInstances := if rule.count > 0 && rule.count < MAX_INSTANCES then rule.count else MAX_INSTANCES;
    Plan(base, rule, exdates, windowStart, d.year, d.month, d.day,
         base.startTime % SECONDS_PER_DAY, U32(base.endTime - base.startTime), endTs, maxInstances)
  }

  /** DateToTimestamp at midnight, the unit of every candidate. */
  function Midnight(y: u32, m: u32, d: u32): u32
    requires 1 <= m <= 12
  {
    Timestamp.DateToTimestamp(y, m, d, 0, 0, 0)
  }

  // ---------------------------------------------------------------------------
  // Candidates of one period
  // ---------------------------------------------------------------------------

  /** Start of the week holding (y, m, d): back to the WKST weekday, into the previous month if need be. */
  function WeekStart(y: u32, m: u32, d: u32, wkst: int): (r: (u32, u32, int))
    requires 1 <= m <= 12 && d >= 1 && 0 <= wkst < 7
    ensures 1 <= r.1 <= 12 && r.2 >= 1
  {
    var dow := Weekdays.DayOfWeek(y, m, d);
    var back := CRem(dow - wkst + 7, 7);
    var wd := d - back;
    if wd < 1 then
      var prev := if m - 1 < 1 then Day(U32(y - 1), 12, 0) else Day(y, m - 1, 0);
      (prev.year, prev.month, wd + Civil.DaysInMonth(prev.year, prev.month))
    else (y, m, wd)
  }

  /**
   WEEKLY with BYDAY: for each of the seven days from the week start (WKST first),
   the day's midnight when its weekday is in BYDAY and it is not before the base
   event's day.
   */
  function WeeklyFrom(p: Plan, wy: u32, wm: u32, wd: int, k: nat, acc: seq<u32>): (r: seq<u32>)
    requires 1 <= wm <= 12 && wd >= 1 && k <= 7 && |acc| <= MAX_CANDIDATES
    ensures |r| <= MAX_CANDIDATES && acc <= r
    decreases 7 - k
  {
    if k >= 7 || |acc| >= MAX_CANDIDATES then acc
    else
      var actualDay := CRem(p.rule.wkst + k, 7);
      var acc' :=
        if actualDay in p.rule.byDayMask then
          var c := NormalizeDate(wy, wm, U32(wd + k));
          var ts := Midnight(c.year, c.month, c.day);
          if ts >= U32(p.base.startTime - p.timeOfDay) then acc + [ts] else acc
        else acc;
      WeeklyFrom(p, wy, wm, wd, k + 1, acc')
  }

  /** A week-0 BYDAY entry in MONTHLY: every day d, d + 7, ... of the month, while there is room. */
  function EveryWeekFrom(y: u32, m: u32, d: u32, acc: seq<u32>): (r: seq<u32>)
    requires 1 <= m <= 12 && |acc| <= MAX_CANDIDATES
    ensures |r| <= MAX_CANDIDATES && acc <= r
    decreases 40 - d
  {
    if d > 0 && d <= Civil.DaysInMonth(y, m) then
      var acc' := if |acc| < MAX_CANDIDATES then acc + [Midnight(y, m, d)] else acc;
      EveryWeekFrom(y, m, d + 7, acc')
    else acc
  }

  /** MONTHLY with BYDAY: each entry gives its week-th weekday, or every one for week 0. */
  function ByDayFrom(y: u32, m: u32, entries: seq<ByDay>, i: nat, acc: seq<u32>): (r: seq<u32>)
    requires 1 <= m <= 12 && i <= |entries| && |acc| <= MAX_CANDIDATES
    ensures |r| <= MAX_CANDIDATES && acc <= r
    decreases |entries| - i
  {
    if i >= |entries| || |acc| >= MAX_CANDIDATES then acc
    else
      var e := entries[i];
      var acc' :=
        if e.day < 0 then acc
        else if e.week == 0 then EveryWeekFrom(y, m, Weekdays.NthWeekdayForRRule(y, m, 1, e.day), acc)
        else
          var d := Weekdays.NthWeekdayForRRule(y, m, e.week, e.day);
          if d > 0 then acc + [Midnight(y, m, d)] else acc;
      ByDayFrom(y, m, entries, i + 1, acc')
  }

  /**
   MONTHLY with BYMONTHDAY: a positive day as is, a negative one counted from the
   month's end in `unsigned`; days outside 1..month length are dropped.
   */
  function MonthDaysFrom(y: u32, m: u32, days: seq<int>, i: nat, acc: seq<u32>): (r: seq<u32>)
    requires 1 <= m <= 12 && i <= |days| && |acc| <= MAX_CANDIDATES
    ensures |r| <= MAX_CANDIDATES && acc <= r
    decreases |days| - i
  {
    if i >= |days| || |acc| >= MAX_CANDIDATES then acc
    else
      var maxDay := Civil.DaysInMonth(y, m);
      var d := days[i];
      var actualDay := if d > 0 then U32(d) else U32(maxDay + d + 1);
      var acc' := if 1 <= actualDay <= maxDay then acc + [Midnight(y, m, actualDay)] else acc;
      MonthDaysFrom(y, m, days, i + 1, acc')
  }

  /** The base day of the month, cut to the month's length. */
  function ClampDay(y: u32, m: u32, baseDay: u32): (d: u32)
    requires 1 <= m <= 12
    ensures 1 <= baseDay ==> 1 <= d
    ensures d <= Civil.DaysInMonth(y, m) && d <= baseDay
    ensures d == baseDay || d == Civil.DaysInMonth(y, m)
  {
    var maxDay := Civil.DaysInMonth(y, m);
    if baseDay > maxDay then maxDay else baseDay
  }

  /** YEARLY with BYMONTH: the clamped base day of every listed month, in month order. */
  function YearlyFrom(p: Plan, y: u32, month: int, acc: seq<u32>): (r: seq<u32>)
    requires 1 <= month <= 13 && |acc| <= MAX_CANDIDATES
    ensures |r| <= MAX_CANDIDATES && acc <= r
    decreases 13 - month
  {
    if month > 12 || |acc| >= MAX_CANDIDATES then acc
    else
      var acc' := if month in p.rule.byMonth then acc + [Midnight(y, month, ClampDay(y, month, p.baseDay))] else acc;
      YearlyFrom(p, y, month + 1, acc')
  }

  /** One pass of the loop: the period's candidates, or the MONTHLY skip of a month BYMONTH leaves out. */
  datatype Period = SkipMonth | Candidates(dates: seq<u32>)

  function PeriodOf(p: Plan, y: u32, m: u32, d: u32): (r: Period)
    requires PlanWf(p) && 1 <= m <= 12 && d >= 1
    ensures r.Candidates? ==> |r.dates| <= MAX_CANDIDATES
    ensures r.SkipMonth? <==> p.rule.freq == Monthly && |p.rule.byMonth| > 0 && m !in p.rule.byMonth
  {
    match p.rule.freq
    case Daily => Candidates([Midnight(y, m, d)])
    case Weekly =>
      if |p.rule.byDayMask| > 0 then
        var (wy, wm, wd) := WeekStart(y, m, d, p.rule.wkst);
        Candidates(WeeklyFrom(p, wy, wm, wd, 0, []))
      else Candidates([Midnight(y, m, d)])
    case Monthly =>
      if |p.rule.byMonth| > 0 && m !in p.rule.byMonth then SkipMonth
      else if |p.rule.byDay| > 0 then Candidates(ByDayFrom(y, m, p.rule.byDay, 0, []))
      else if |p.rule.byMonthDays| > 0 then Candidates(MonthDaysFrom(y, m, p.rule.byMonthDays, 0, []))
      else Candidates([Midnight(y, m, ClampDay(y, m, p.baseDay))])
    case Yearly =>
      if |p.rule.byMonth| > 0 then Candidates(YearlyFrom(p, y, 1, []))
      else Candidates([Midnight(y, p.baseMonth, p.baseDay)])
    case NoFreq => Candidates([])
  }

  // ---------------------------------------------------------------------------
  // Sorting and BYSETPOS
  // ---------------------------------------------------------------------------

  predicate Ascending(s: seq<u32>) {
    forall i, j | 0 <= i < j < |s| :: s[i] <= s[j]
  }

  /** One step of the insertion sort: shift larger entries right, then place x. */
  function InsertAscending(x: u32, s: seq<u32>): (r: seq<u32>)
    ensures |r| == |s| + 1
    decreases |s|
  {
    if |s| == 0 || s[|s| - 1] <= x then s + [x]
    else InsertAscending(x, s[..|s| - 1]) + [s[|s| - 1]]
  }

  /** The insertion sort of the candidates. */
  function SortAscending(s: seq<u32>): (r: seq<u32>)
    ensures |r| == |s|
    decreases |s|
  {
    if |s| == 0 then [] else InsertAscending(s[|s| - 1], SortAscending(s[..|s| - 1]))
  }

  lemma {:induction false} InsertAscendingSpec(x: u32, s: seq<u32>)
    requires Ascending(s)
    ensures Ascending(InsertAscending(x, s))
    ensures multiset(InsertAscending(x, s)) == multiset(s) + multiset{x}
    decreases |s|, 1
  {
    if |s| == 0 || s[|s| - 1] <= x {
      AppendLargest(s, x);
    } else {
      InsertBeforeLast(x, s);
    }
  }

  /** Inserting below the last entry: insert into the rest, then put the last entry back at the end. */
  lemma {:induction false} InsertBeforeLast(x: u32, s: seq<u32>)
    requires Ascending(s) && |s| > 0 && x < s[|s| - 1]
    ensures Ascending(InsertAscending(x, s))
    ensures multiset(InsertAscending(x, s)) == multiset(s) + multiset{x}
    decreases |s|, 0
  {
    var init, last := s[..|s| - 1], s[|s| - 1];
    assert s == init + [last];
    assert Ascending(init);
    assert forall v | v in init :: v <= last;
    InsertAscendingSpec(x, init);
    var t := InsertAscending(x, init);
    forall i | 0 <= i < |t| ensures t[i] <= last {
      assert t[i] in multiset(t);
      assert t[i] in multiset(init) || t[i] == x;
    }
    AppendLargest(t, last);
  }

  lemma {:induction false} AppendLargest(t: seq<u32>, last: u32)
    requires Ascending(t) && forall i | 0 <= i < |t| :: t[i] <= last
    ensures Ascending(t + [last])
  {
  }

  /** The sorted candidates are ascending and a permutation of the period's candidates. */
  lemma {:induction false} SortAscendingSpec(s: seq<u32>)
    ensures Ascending(SortAscending(s))
    ensures multiset(SortAscending(s)) == multiset(s)
    decreases |s|
  {
    if |s| > 0 {
      var init := s[..|s| - 1];
      assert s == init + [s[|s| - 1]];
      SortAscendingSpec(init);
      InsertAscendingSpec(s[|s| - 1], SortAscending(init));
    }
  }

  /**
   BYSETPOS on the sorted candidates: 0 keeps them all; a positive pos keeps the
   pos-th, a negative one the (-pos)-th from the end; an index outside the list
   keeps none.
   */
  function SelectSetPos(c: seq<u32>, pos: int): (r: seq<u32>)
    ensures pos == 0 || |c| == 0 ==> r == c
    ensures pos != 0 && |c| > 0 ==> |r| <= 1 && multiset(r) <= multiset(c)
  {
    if pos != 0 && |c| > 0 then
      var idx := if pos > 0 then pos - 1 else |c| + pos;
      if 0 <= idx < |c| then [c[idx]] else []
    else c
  }

  /**
   On ascending candidates BYSETPOS n keeps the n-th smallest: exactly n - 1
   candidates come before it (counting from the end for a negative n).
   */
  lemma {:induction false} SelectSetPosRank(c: seq<u32>, pos: int)
    requires Ascending(c) && pos != 0 && -|c| <= pos <= |c|
    ensures var r := SelectSetPos(c, pos);
      |r| == 1
      && (pos > 0 ==> (forall i | 0 <= i < pos - 1 :: c[i] <= r[0]) && (forall i | pos - 1 < i < |c| :: r[0] <= c[i]))
      && (pos < 0 ==> (forall i | |c| + pos < i < |c| :: r[0] <= c[i]) && (forall i | 0 <= i < |c| + pos :: c[i] <= r[0]))
  {
  }

  // ---------------------------------------------------------------------------
  // Emission
  // ---------------------------------------------------------------------------

  /** An instance: the base event moved to `start`, with the base duration. */
  function Instance(p: Plan, start: u32): (e: CalendarEvent)
    ensures e.startTime == start && e.endTime == U32(start + p.duration)
    ensures e.title == p.base.title && e.allDay == p.base.allDay
    ensures e.eventColor == p.base.eventColor && e.calendarColor == p.base.calendarColor
  {
    p.base.(startTime := start, endTime := U32(start + p.duration))
  }

  /** The emission test: by UTC day for all-day events, by second otherwise. */
  predicate InstanceInWindow(p: Plan, start: u32) {
    if p.base.allDay then start / SECONDS_PER_DAY >= p.windowStart / SECONDS_PER_DAY
    else start >= p.windowStart
  }

  /**
   The emission loop over the selected candidates, from index i: candidates before
   the base start are skipped without counting; one past the end stops the whole
   expansion (`r.2`); an excluded date counts but is not emitted; any other counts
   and is emitted when in the window. The loop also stops once the budget is used.
   */
  function EmitFrom(p: Plan, c: seq<u32>, i: nat, total: int, out: seq<CalendarEvent>): (r: (int, seq<CalendarEvent>, bool))
    requires i <= |c|
    ensures total <= r.0 && out <= r.1 && |r.1| - |out| <= r.0 - total
    ensures total <= p.maxInstances ==> r.0 <= p.maxInstances
    decreases |c| - i
  {
    if i >= |c| || total >= p.maxInstances then (total, out, false)
    else
      var date := c[i];
      var start := U32(date + p.timeOfDay);
      if start < p.base.startTime then EmitFrom(p, c, i + 1, total, out)
      else if start > p.endTs then (total, out, true)
      else if date in p.exdates then EmitFrom(p, c, i + 1, total + 1, out)
      else if InstanceInWindow(p, start) then EmitFrom(p, c, i + 1, total + 1, out + [Instance(p, start)])
      else EmitFrom(p, c, i + 1, total + 1, out)
  }

  // ---------------------------------------------------------------------------
  // The period loop
  // ---------------------------------------------------------------------------

  /** The step to the next period, or None when the frequency is not one of the four. */
  function Advance(p: Plan, y: u32, m: u32, d: u32): (r: Option<Day>)
    requires 1 <= m <= 12
    ensures r.None? <==> p.rule.freq == NoFreq
    ensures r.Some? ==> r.value.day >= 1 || r.value.day == d
    ensures r.Some? && p.rule.freq != Monthly ==> 1 <= r.value.month <= 12
  {
    match p.rule.freq
    case Daily => Some(NormalizeDate(y, m, U32(d + p.rule.interval)))
    case Weekly => Some(NormalizeDate(y, m, U32(d + U32(7 * p.rule.interval))))
    case Monthly =>
      var (y', m') := AdvanceMonth(y, m, p.rule.interval);
      Some(Day(y', m', d))
    case Yearly => Some(Day(U32(y + p.rule.interval), m, d))
    case NoFreq => None
  }

  /** How the expansion ends: with its instance count and events, out of the month table, or out of fuel. */
  datatype Expansion = Expanded(total: int, events: seq<CalendarEvent>) | MonthOutOfRange | Unfinished

  /** How one pass of the loop ends: the loop is left, the month table is overrun, or the next period follows. */
  datatype Pass = Stop(total: int, events: seq<CalendarEvent>) | OutOfRange | Next(day: Day, total: int, events: seq<CalendarEvent>)

  /**
   One pass of the loop body for period (y, m, d). A skipped MONTHLY period goes
   straight back to the loop test; any other pass emits its sorted, BYSETPOS-cut
   candidates, advances, and leaves the loop once the first of the new period's
   month lies after the end.
   */
  function PassOf(p: Plan, y: u32, m: u32, d: u32, total: int, out: seq<CalendarEvent>): (r: Pass)
    requires PlanWf(p) && 1 <= m <= 12 && d >= 1
    ensures r.Next? ==> r.day.day >= 1
    ensures r.Stop? || r.Next? ==> out <= r.events && total <= r.total && |r.events| - |out| <= r.total - total
    ensures (r.Stop? || r.Next?) && total <= p.maxInstances ==> r.total <= p.maxInstances
  {
    match PeriodOf(p, y, m, d)
    case SkipMonth =>
      var (y', m') := AdvanceMonth(y, m, p.rule.interval);
      Next(Day(y', m', d), total, out)
    case Candidates(c) =>
      var emitted := EmitFrom(p, SelectSetPos(SortAscending(c), p.rule.bySetPos), 0, total, out);
      if emitted.2 then Stop(emitted.0, emitted.1)
      else match Advance(p, y, m, d)
        case None => Stop(emitted.0, emitted.1)
        case Some(next) =>
          if next.month == 0 then OutOfRange
          else if Midnight(next.year, next.month, 1) > p.endTs then Stop(emitted.0, emitted.1)
          else Next(next, emitted.0, emitted.1)
  }

  /**
   The `while (totalInstanceCount < maxInstances)` loop from period (y, m, d), for
   at most `fuel` passes.
   */
  function ExpandLoop(p: Plan, y: u32, m: u32, d: u32, total: int, out: seq<CalendarEvent>, fuel: nat): (r: Expansion)
    requires PlanWf(p) && d >= 1
    ensures r.Expanded? ==> out <= r.events && |r.events| - |out| <= r.total - total
    ensures r.Expanded? && total <= p.maxInstances ==> r.total <= p.maxInstances
    ensures r.Expanded? && AllGood(p, out) ==> AllGood(p, r.events)
    decreases fuel
  {
    if total >= p.maxInstances then Expanded(total, out)
    else if fuel == 0 then Unfinished
    else if !(1 <= m <= 12) then MonthOutOfRange
    else
      PassOfGood(p, y, m, d, total, out);
      match PassOf(p, y, m, d, total, out)
      case Stop(total', out') => Expanded(total', out')
      case OutOfRange => MonthOutOfRange
      case Next(next, total', out') => ExpandLoop(p, next.year, next.month, next.day, total', out', fuel - 1)
  }

  /**
   ExpandRecurringEvent for a parsed rule, with the exclusion list (EXDATE values
   and recorded RECURRENCE-ID dates) and the parser's window, for at most `fuel`
   periods.
   */
  function ExpandRecurringEvent(base: CalendarEvent, rule: RRule, exdates: seq<u32>,
                                windowStart: u32, windowEnd: u32, fuel: nat): (r: Expansion)
    requires Wf(rule)
    ensures r.Expanded? ==> |r.events| <= r.total <= MAX_INSTANCES
    ensures r.Expanded? && rule.count > 0 ==> |r.events| <= rule.count
  {
    var p := MakePlan(base, rule, exdates, windowStart, windowEnd);
    ExpandLoop(p, p.baseYear, p.baseMonth, p.baseDay, 0, [], fuel)
  }

  // ---------------------------------------------------------------------------
  // What the emitted instances satisfy
  // ---------------------------------------------------------------------------

  /**
   An emitted instance: the base event moved to a start in [base start, end] with
   the base duration, whose date (start less the base time of day) is not
   excluded, and which passes the window test.
   */
  predicate GoodInstance(p: Plan, e: CalendarEvent) {
    && e == Instance(p, e.startTime)
    && p.base.startTime <= e.startTime <= p.endTs
    && p.timeOfDay <= e.startTime
    && (e.startTime - p.timeOfDay) !in p.exdates
    && InstanceInWindow(p, e.startTime)
  }

  predicate AllGood(p: Plan, s: seq<CalendarEvent>) {
    forall i | 0 <= i < |s| :: GoodInstance(p, s[i])
  }

  /** A candidate whose start does not wrap lies on its own date. */
  lemma {:induction false} StartOfCandidate(p: Plan, date: u32)
    requires PlanWf(p) && U32(date + p.timeOfDay) >= p.base.startTime
    ensures date + p.timeOfDay < TWO32
    ensures U32(date + p.timeOfDay) - p.timeOfDay == date
  {
    assert U32(date + p.timeOfDay) == if date + p.timeOfDay < TWO32 then date + p.timeOfDay else date + p.timeOfDay - TWO32;
    assert p.timeOfDay <= p.base.startTime;
  }

  lemma {:induction false} EmitFromGood(p: Plan, c: seq<u32>, i: nat, total: int, out: seq<CalendarEvent>)
    requires PlanWf(p) && i <= |c| && AllGood(p, out)
    ensures AllGood(p, EmitFrom(p, c, i, total, out).1)
    decreases |c| - i
  {
    if i < |c| && total < p.maxInstances {
      var start := U32(c[i] + p.timeOfDay);
      if start < p.base.startTime {
        EmitFromGood(p, c, i + 1, total, out);
      } else if start <= p.endTs {
        EmitInRange(p, c, i, total, out);
        EmitOneGood(p, c[i], out);
        EmitFromGood(p, c, i + 1, total + 1, EmitOne(p, c[i], out));
      }
    }
  }

  /** Emitting one candidate inside [base start, end] keeps every emitted event an instance. */
  lemma {:induction false} EmitOneGood(p: Plan, date: u32, out: seq<CalendarEvent>)
    requires PlanWf(p) && AllGood(p, out)
    requires p.base.startTime <= U32(date + p.timeOfDay) <= p.endTs
    ensures AllGood(p, EmitOne(p, date, out))
  {
    var start := U32(date + p.timeOfDay);
    if date !in p.exdates && InstanceInWindow(p, start) {
      StartOfCandidate(p, date);
      var out' := out + [Instance(p, start)];
      assert GoodInstance(p, Instance(p, start));
      forall k | 0 <= k < |out'| ensures GoodInstance(p, out'[k]) {
        if k < |out| { assert out'[k] == out[k]; }
      }
    }
  }

  lemma {:induction false} PassOfGood(p: Plan, y: u32, m: u32, d: u32, total: int, out: seq<CalendarEvent>)
    requires PlanWf(p) && 1 <= m <= 12 && d >= 1
    ensures var r := PassOf(p, y, m, d, total, out);
      (r.Stop? || r.Next?) && AllGood(p, out) ==> AllGood(p, r.events)
  {
    if AllGood(p, out) {
      match PeriodOf(p, y, m, d)
      case SkipMonth =>
      case Candidates(c) =>
        EmitFromGood(p, SelectSetPos(SortAscending(c), p.rule.bySetPos), 0, total, out);
    }
  }

  /**
   What an instance of `base` satisfies: a start between the base start and the
   end (the window end, and UNTIL when set), the base duration (in `unsigned`),
   every other field of the base event, and a date (start less the base time of day)
   that is not excluded.
   */
  predicate ExpandedInstance(base: CalendarEvent, rule: RRule, exdates: seq<u32>, windowEnd: u32, e: CalendarEvent) {
    && base.startTime <= e.startTime <= windowEnd
    && (rule.until > 0 ==> e.startTime <= rule.until)
    && e.endTime == U32(e.startTime + U32(base.endTime - base.startTime))
    && e == base.(startTime := e.startTime, endTime := e.endTime)
    && e.startTime - base.startTime % SECONDS_PER_DAY !in exdates
  }

  /** Every instance ExpandRecurringEvent emits is an instance of the base event. */
  lemma {:induction false} ExpandedInstancesGood(base: CalendarEvent, rule: RRule, exdates: seq<u32>,
                                                 windowStart: u32, windowEnd: u32, fuel: nat)
    requires Wf(rule)
    ensures var r := ExpandRecurringEvent(base, rule, exdates, windowStart, windowEnd, fuel);
      r.Expanded? ==> forall i | 0 <= i < |r.events| :: ExpandedInstance(base, rule, exdates, windowEnd, r.events[i])
  {
    var p := MakePlan(base, rule, exdates, windowStart, windowEnd);
    PlanExpandedGood(p, base, rule, exdates, windowEnd, fuel);
  }

  /** ExpandedInstancesGood for any plan with the set-up's properties. */
  lemma {:induction false} PlanExpandedGood(p: Plan, base: CalendarEvent, rule: RRule, exdates: seq<u32>, windowEnd: u32, fuel: nat)
    requires PlanWf(p) && p.base == base && p.rule == rule && p.exdates == exdates
    requires p.timeOfDay == base.startTime % SECONDS_PER_DAY && p.duration == U32(base.endTime - base.startTime)
    requires p.endTs <= windowEnd && (rule.until > 0 ==> p.endTs <= rule.until)
    ensures var r := ExpandLoop(p, p.baseYear, p.baseMonth, p.baseDay, 0, [], fuel);
      r.Expanded? ==> forall i | 0 <= i < |r.events| :: ExpandedInstance(base, rule, exdates, windowEnd, r.events[i])
  {
    var r := ExpandLoop(p, p.baseYear, p.baseMonth, p.baseDay, 0, [], fuel);
    assert AllGood(p, []);
    if r.Expanded? {
      forall i | 0 <= i < |r.events| ensures ExpandedInstance(base, rule, exdates, windowEnd, r.events[i]) {
        GoodIsExpanded(p, base, rule, exdates, windowEnd, r.events[i]);
      }
    }
  }

  lemma {:induction false} GoodIsExpanded(p: Plan, base: CalendarEvent, rule: RRule, exdates: seq<u32>, windowEnd: u32, e: CalendarEvent)
    requires p.base == base && p.rule == rule && p.exdates == exdates
    requires p.timeOfDay == base.startTime % SECONDS_PER_DAY && p.duration == U32(base.endTime - base.startTime)
    requires p.endTs <= windowEnd && (rule.until > 0 ==> p.endTs <= rule.until)
    requires GoodInstance(p, e)
    ensures ExpandedInstance(base, rule, exdates, windowEnd, e)
  {
    assert e == Instance(p, e.startTime);
  }

  /**
   Every candidate between the base start and the end uses up one instance of the
   budget, whether it is emitted, excluded or outside the window; none stops the
   loop early.
   */
  lemma {:induction false} EmitCountsEveryCandidate(p: Plan, c: seq<u32>, i: nat, total: int, out: seq<CalendarEvent>)
    requires i <= |c| && total + (|c| - i) <= p.maxInstances
    requires forall j | i <= j < |c| :: p.base.startTime <= U32(c[j] + p.timeOfDay) <= p.endTs
    ensures EmitFrom(p, c, i, total, out).0 == total + (|c| - i)
    ensures !EmitFrom(p, c, i, total, out).2
    decreases |c| - i
  {
    if i < |c| {
      EmitInRange(p, c, i, total, out);
      EmitCountsEveryCandidate(p, c, i + 1, total + 1, EmitOne(p, c[i], out));
    }
  }

  /** The output after one candidate inside [base start, end]: unchanged when excluded or outside the window. */
  function EmitOne(p: Plan, date: u32, out: seq<CalendarEvent>): seq<CalendarEvent> {
    var start := U32(date + p.timeOfDay);
    if date in p.exdates then out
    else if InstanceInWindow(p, start) then out + [Instance(p, start)]
    else out
  }

  /** One candidate inside [base start, end] always counts and never stops the loop. */
  lemma {:induction false} EmitInRange(p: Plan, c: seq<u32>, i: nat, total: int, out: seq<CalendarEvent>)
    requires i < |c| && total < p.maxInstances
    requires p.base.startTime <= U32(c[i] + p.timeOfDay) <= p.endTs
    ensures EmitFrom(p, c, i, total, out) == EmitFrom(p, c, i + 1, total + 1, EmitOne(p, c[i], out))
  {
  }

  // ---------------------------------------------------------------------------
  // The loop that does not finish
  // ---------------------------------------------------------------------------

  /**
   MONTHLY with a BYMONTH the interval never reaches: when the interval is a whole
   number of years and the current month is not listed, every pass skips the month
   and comes back to the same month a year later, never reaching the end test, so
   no amount of fuel finishes the loop.
   */
  lemma {:induction false} MonthlyUnreachableByMonth(p: Plan, y: u32, m: u32, d: u32, total: int, out: seq<CalendarEvent>, fuel: nat)
    requires PlanWf(p) && d >= 1 && 1 <= m <= 12 && total < p.maxInstances
    requires p.rule.freq == Monthly && |p.rule.byMonth| > 0 && m !in p.rule.byMonth
    requires p.rule.interval % 12 == 0 && m + p.rule.interval < TWO32
    ensures ExpandLoop(p, y, m, d, total, out, fuel) == Unfinished
    decreases fuel
  {
    if fuel > 0 {
      AdvanceWholeYears(y, m, p.rule.interval);
      var (y', m') := AdvanceMonth(y, m, p.rule.interval);
      assert PassOf(p, y, m, d, total, out) == Next(Day(y', m', d), total, out);
      MonthlyUnreachableByMonth(p, y', m', d, total, out, fuel - 1);
    }
  }

  /**
   The example of the rule's own comment: FREQ=MONTHLY;INTERVAL=12;BYMONTH=6 for an
   event in January never finishes expanding.
   */
  lemma {:induction false} JuneFromJanuaryNeverEnds(base: CalendarEvent, rule: RRule, exdates: seq<u32>,
                                                     windowStart: u32, windowEnd: u32, fuel: nat)
    requires Wf(rule) && rule.freq == Monthly && rule.interval == 12 && rule.byMonth == {6}
    requires Timestamp.TimestampToDate(base.startTime).month == 1
    ensures ExpandRecurringEvent(base, rule, exdates, windowStart, windowEnd, fuel) == Unfinished
  {
    var p := MakePlan(base, rule, exdates, windowStart, windowEnd);
    assert 1 !in rule.byMonth;
    MonthlyUnreachableByMonth(p, p.baseYear, p.baseMonth, p.baseDay, 0, [], fuel);
  }

  // ---------------------------------------------------------------------------
  // Stepping between periods
  // ---------------------------------------------------------------------------

  /**
   DAILY and WEEKLY step by exactly `interval` days or weeks of the calendar, as
   long as the unsigned day and year do not wrap.
   */
  lemma {:induction false} AdvanceStepsDays(p: Plan, y: u32, m: u32, d: u32)
    requires 1 <= m <= 12 && d >= 1 && (p.rule.freq == Daily || p.rule.freq == Weekly)
    requires var step := if p.rule.freq == Daily then p.rule.interval else 7 * p.rule.interval;
      y + d + step < TWO32
    ensures var step := if p.rule.freq == Daily then p.rule.interval else 7 * p.rule.interval;
      var next := Advance(p, y, m, d).value;
      Civil.ValidDate(Civil.Date(next.year, next.month, next.day))
      && DayNumber(next) == DayNumber(Day(y, m, d)) + step
  {
    var step := if p.rule.freq == Daily then p.rule.interval else 7 * p.rule.interval;
    AdvanceNormalizes(p, y, m, d, step);
    NormalizeDateSpec(y, m, d + step);
  }

  /** Without a wrap, DAILY and WEEKLY normalise the day plus the step. */
  lemma {:induction false} AdvanceNormalizes(p: Plan, y: u32, m: u32, d: u32, step: int)
    requires 1 <= m <= 12 && (p.rule.freq == Daily || p.rule.freq == Weekly)
    requires step == if p.rule.freq == Daily then p.rule.interval else 7 * p.rule.interval
    requires d + step < TWO32
    ensures Advance(p, y, m, d) == Some(NormalizeDate(y, m, d + step))
  {
    if p.rule.freq == Weekly {
      assert U32(7 * p.rule.interval) == step;
    }
    assert U32(d + step) == d + step;
  }
}
