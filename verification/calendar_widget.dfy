/**
 The four-week rolling calendar widget: the local date, the 28 day cells from
 the Sunday of the current week, the "Mon D" label on the first of a month, the
 events listed in a cell (all-day events first, then by start time), the colour
 of an event and the contrast colour of its text, and the short "h:MMam" start
 time of a timed event. Time zone offsets are parameters: `offset` is the value
 GetTimezoneOffset gives for the widget's zone at the time in question.
 */
module CalendarWidget {
  import opened Machine
  import opened Text
  import Civil
  import Timestamp
  import Weekdays
  import Clock
  import Events
  import opened Wrappers

  const MAX_EVENTS: nat := 200
  const MAX_EVENTS_PER_DAY: nat := 4
  const CELLS: nat := 28
  const SHORT_TIME_SIZE: nat := 16
  const MONTH_SHORT: seq<string> := ["Jan", "Feb", "Mar", "Apr", "May", "Jun", "Jul", "Aug", "Sep", "Oct", "Nov", "Dec"]

  // ---------------------------------------------------------------------------
  // The local date
  // ---------------------------------------------------------------------------

  /** `(unsigned)((int)utcTime + offset)`: the signed sum taken back to `unsigned`. */
  function LocalTime(utc: u32, offset: int): (t: u32)
    ensures t == (utc + offset) % TWO32
  {
    U32Add(I32(utc), offset);
    U32(I32(utc) + offset)
  }

  /** The whole local days since 1970 that Update compares with the last day drawn. */
  function LocalDay(utc: u32, offset: int): nat {
    LocalTime(utc, offset) / Timestamp.SECONDS_PER_DAY
  }

  /** Update: redraw only when the local day number differs from the one last drawn; the new last day. */
  function Tick(lastDay: nat, utc: u32, offset: int): (r: (nat, bool))
    ensures r.1 <==> LocalDay(utc, offset) != lastDay
    ensures r.0 == LocalDay(utc, offset)
  {
    var days := LocalDay(utc, offset);
    (days, days != lastDay)
  }

  /**
   UpdateCalendar: the year walk from 1970 and the month walk of the local day
   number (the walks of Timestamp.TimestampToDate); the result is the calendar
   date of the local day.
   */
  function CurrentDate(utc: u32, offset: int): (d: Civil.Date)
    ensures d == Civil.CivilFromDays(LocalDay(utc, offset))
    ensures Civil.ValidDate(d) && d.year >= 1970
  {
    Timestamp.TimestampToDateIsCivil(LocalTime(utc, offset));
    Timestamp.TimestampToDate(LocalTime(utc, offset))
  }

  // ---------------------------------------------------------------------------
  // The rolling calendar
  // ---------------------------------------------------------------------------

  /** The month before (y, m): January steps back to December of the year before. */
  function PrevMonth(y: int, m: int): (r: (int, int))
    requires 1 <= m <= 12
    ensures 1 <= r.1 <= 12
    ensures Civil.DaysFromCivil(Civil.Date(r.0, r.1, 1)) + Civil.DaysInMonth(r.0, r.1) == Civil.DaysFromCivil(Civil.Date(y, m, 1))
  {
    if m == 1 then
      Civil.NextMonthStart(y - 1, 12);
      (y - 1, 12)
    else
      Civil.NextMonthStart(y, m - 1);
      (y, m - 1)
  }

  /**
   The back-up loop of RenderRollingCalendar: while the day is before the 1st,
   step into the previous month and add its length. Day d of (y, m), counted
   from the 1st, may be zero or negative; the result is the same day as a date.
   */
  function BackUp(y: int, m: int, d: int): (r: Civil.Date)
    requires 1 <= m <= 12 && d <= Civil.DaysInMonth(y, m)
    ensures Civil.ValidDate(r)
    ensures Civil.DaysFromCivil(r) == Civil.DaysFromCivil(Civil.Date(y, m, 1)) + d - 1
    decreases if d < 1 then 1 - d else 0
  {
    if d >= 1 then Civil.Date(y, m, d)
    else
      var (py, pm) := PrevMonth(y, m);
      BackUp(py, pm, d + Civil.DaysInMonth(py, pm))
  }

  /** The first cell: `currentDay - dayOfWeek`, backed up into the previous month when needed. */
  function WeekStart(today: Civil.Date, dow: int): (r: Civil.Date)
    requires Civil.ValidDate(today) && 0 <= dow < 7
    ensures Civil.ValidDate(r)
    ensures Civil.DaysFromCivil(r) == Civil.DaysFromCivil(today) - dow
  {
    BackUp(today.year, today.month, today.day - dow)
  }

  /** The step to the next cell: the next day, rolling over month and year ends. */
  function NextDay(c: Civil.Date): (r: Civil.Date)
    requires Civil.ValidDate(c)
    ensures Civil.ValidDate(r)
    ensures Civil.DaysFromCivil(r) == Civil.DaysFromCivil(c) + 1
  {
    Civil.NextMonthStart(c.year, c.month);
    if c.day + 1 > Civil.DaysInMonth(c.year, c.month) then
      if c.month + 1 > 12 then Civil.Date(c.year + 1, 1, 1) else Civil.Date(c.year, c.month + 1, 1)
    else Civil.Date(c.year, c.month, c.day + 1)
  }

  /** n cells from c on, each the day after the one before. */
  function Walk(c: Civil.Date, n: nat): (cells: seq<Civil.Date>)
    requires Civil.ValidDate(c)
    ensures |cells| == n
    ensures forall k | 0 <= k < n :: Civil.ValidDate(cells[k]) && Civil.DaysFromCivil(cells[k]) == Civil.DaysFromCivil(c) + k
    decreases n
  {
    if n == 0 then [] else [c] + Walk(NextDay(c), n - 1)
  }

  /** The 28 cells of the rolling calendar for a given weekday of today (Sunday = 0). */
  function Rolling(today: Civil.Date, dow: int): (cells: seq<Civil.Date>)
    requires Civil.ValidDate(today) && 0 <= dow < 7
  {
    Walk(WeekStart(today, dow), CELLS)
  }

  /** The cells as the widget computes them: with the unsigned Zeller weekday of GetDayOfWeek. */
  function RollingCalendarAsWritten(today: Civil.Date): (cells: seq<Civil.Date>)
    requires Civil.ValidDate(today) && 0 <= today.year < TWO32
  {
    Rolling(today, Weekdays.DayOfWeekAsWritten(today.year, today.month, today.day))
  }

  /** The cells with the corrected weekday. */
  function RollingCalendar(today: Civil.Date): (cells: seq<Civil.Date>)
    requires Civil.ValidDate(today)
  {
    Rolling(today, Weekdays.DayOfWeekCorrected(today.year, today.month, today.day))
  }

  /** A valid date with a day number from 0 on is in 1970 or later. */
  lemma {:induction false} NonNegativeDaysFrom1970(d: Civil.Date)
    requires Civil.ValidDate(d) && Civil.DaysFromCivil(d) >= 0
    ensures d.year >= 1970
  {
    if d.year < 1970 {
      Civil.DayOfYearBounds(d);
      Civil.DaysBeforeYearStep(d.year);
      Civil.DaysBeforeYearMonotone(d.year + 1, 1970);
    }
  }

  /**
   The rolling calendar's 28 cells are consecutive days; the first is a Sunday, and
   today is in the first row, in the column of its weekday, and in no other cell.
   */
  lemma {:induction false} RollingCalendarShowsToday(today: Civil.Date)
    requires Civil.ValidDate(today) && today.year >= 1970
    ensures var cells := RollingCalendar(today);
            var dow := Weekdays.DayOfWeek(today.year, today.month, today.day);
            |cells| == CELLS
            && (forall k | 0 <= k < CELLS - 1 :: Civil.DaysFromCivil(cells[k + 1]) == Civil.DaysFromCivil(cells[k]) + 1)
            && Civil.Weekday(Civil.DaysFromCivil(cells[0])) == 0
            && cells[dow] == today
            && (forall k | 0 <= k < CELLS :: cells[k] == today <==> k == dow)
  {
    var dow := Weekdays.DayOfWeek(today.year, today.month, today.day);
    RollingShows(today, dow);
  }

  /** Stepping back by a day number's weekday lands on a Sunday. */
  lemma {:induction false} BackToSunday(n: int)
    ensures Civil.Weekday(n - Civil.Weekday(n)) == 0
  {
    var q := (n + 4) / 7;
    assert n + 4 == 7 * q + Civil.Weekday(n);
    assert n - Civil.Weekday(n) + 4 == 7 * q;
  }

  /** The cells from the start of today's week: the rolling calendar for today's weekday. */
  lemma {:induction false} RollingShows(today: Civil.Date, dow: int)
    requires Civil.ValidDate(today) && today.year >= 1970
    requires dow == Civil.Weekday(Civil.DaysFromCivil(today))
    ensures var cells := Rolling(today, dow);
            |cells| == CELLS
            && (forall k | 0 <= k < CELLS - 1 :: Civil.DaysFromCivil(cells[k + 1]) == Civil.DaysFromCivil(cells[k]) + 1)
            && Civil.Weekday(Civil.DaysFromCivil(cells[0])) == 0
            && cells[dow] == today
            && (forall k | 0 <= k < CELLS :: cells[k] == today <==> k == dow)
  {
    var start := WeekStart(today, dow);
    var n := Civil.DaysFromCivil(today);
    BackToSunday(n);
    assert Civil.Weekday(Civil.DaysFromCivil(start)) == 0;
    WalkFindsDay(start, CELLS, today, dow);
  }

  /** A walk of n days from start meets a date exactly once, k days in, when that date is k days after start. */
  lemma {:induction false} WalkFindsDay(start: Civil.Date, n: nat, today: Civil.Date, k0: nat)
    requires Civil.ValidDate(start) && Civil.ValidDate(today) && today.year >= 1970
    requires Civil.DaysFromCivil(today) == Civil.DaysFromCivil(start) + k0 && k0 < n
    ensures var cells := Walk(start, n);
            cells[k0] == today && forall k | 0 <= k < n :: cells[k] == today <==> k == k0
  {
    var cells := Walk(start, n);
    Civil.CivilRoundTrip(today);
    NonNegativeDaysFrom1970(cells[k0]);
    Civil.DaysFromCivilInjective(cells[k0], today);
    forall k | 0 <= k < n
      ensures cells[k] == today <==> k == k0
    {
      assert Civil.DaysFromCivil(cells[k]) == Civil.DaysFromCivil(start) + k;
    }
  }

  /** From 2020 to 2099 the unsigned weekday is right, so the widget draws the corrected calendar. */
  lemma {:induction false} RollingAsWrittenAgrees(today: Civil.Date)
    requires Civil.ValidDate(today) && 2020 <= today.year <= 2099
    ensures RollingCalendarAsWritten(today) == RollingCalendar(today)
  {
    Weekdays.NoWrap2020To2099(today.year, today.month, today.day);
  }

  /**
   On Friday 1 March 2019 the unsigned weekday is Tuesday, so the calendar the
   widget draws starts on Wednesday 27 February instead of Sunday 24 February.
   */
  lemma {:induction false} RollingAsWrittenOn2019March1()
    ensures RollingCalendarAsWritten(Civil.Date(2019, 3, 1))[0] == Civil.Date(2019, 2, 27)
    ensures RollingCalendar(Civil.Date(2019, 3, 1))[0] == Civil.Date(2019, 2, 24)
  {
    var today := Civil.Date(2019, 3, 1);
    Weekdays.AsWrittenWrapsOn2019March1();
    BackIntoFebruary2019(-1);
    BackIntoFebruary2019(-4);
    assert WeekStart(today, 2) == Civil.Date(2019, 2, 27);
    assert WeekStart(today, 5) == Civil.Date(2019, 2, 24);
  }

  /** Day d of March 2019, for d from -27 to 0, backs up to day 28 + d of February. */
  lemma {:induction false} BackIntoFebruary2019(d: int)
    requires -27 <= d <= 0
    ensures BackUp(2019, 3, d) == Civil.Date(2019, 2, 28 + d)
  {
    var feb := Civil.DaysInMonth(2019, 2);
    assert !Civil.IsLeap(2019);
    assert feb == 28;
    assert PrevMonth(2019, 3) == (2019, 2);
  }

  /** The label of a cell: "Mon D" on the first of a month, else the bare day number. */
  function CellLabel(c: Civil.Date): (l: string)
    requires 1 <= c.month <= 12 && c.day >= 1
    ensures c.day == 1 ==> l == MONTH_SHORT[c.month - 1] + " 1"
    ensures c.day != 1 ==> AllDigits(l) && DecimalValue(l) == c.day
  {
    if c.day == 1 then MONTH_SHORT[c.month - 1] + " " + NatToString(c.day) else NatToString(c.day)
  }

  // ---------------------------------------------------------------------------
  // Event colours
  // ---------------------------------------------------------------------------

  type Byte = x: int | 0 <= x < 256

  /** `lv_color_make(r, g, b)`. */
  datatype Rgb = Rgb(red: Byte, green: Byte, blue: Byte)

  const DEFAULT_GRAY: Rgb := Rgb(100, 100, 100)

  /**
   `strtoul` in base 16 on the two-character string ab: white space is skipped,
   a sign may lead, then hexadecimal digits are read. A minus negates in
   `unsigned long`; the value is then cut to `unsigned int` and to the 8-bit
   channel, which leaves it modulo 256.
   */
  function HexPair(a: char, b: char): (v: Byte)
  {
    var n: int :=
      if IsCSpace(a) || a == '+' then (if IsHexDigit(b) then HexValue(b) else 0)
      else if a == '-' then (if IsHexDigit(b) then -(HexValue(b) as int) else 0)
      else if IsHexDigit(a) then (if IsHexDigit(b) then 16 * HexValue(a) + HexValue(b) else HexValue(a))
      else 0;
    n % 256
  }

  /** ParseHexColor: "#RRGGBB…" channel by channel; gray without the '#' or with fewer than seven characters. */
  function ParseHexColor(hex: string): (c: Rgb)
    ensures (|hex| < 7 || hex[0] != '#') ==> c == DEFAULT_GRAY
  {
    if |hex| < 7 || hex[0] != '#' then DEFAULT_GRAY
    else Rgb(HexPair(hex[1], hex[2]), HexPair(hex[3], hex[4]), HexPair(hex[5], hex[6]))
  }

  /** `%02X%02X%02X` of a colour after a '#' parses back to the colour, whatever follows. */
  lemma {:induction false} ParseHexColorOfHex(c: Rgb, rest: string)
    ensures ParseHexColor("#" + Hex2(c.red) + Hex2(c.green) + Hex2(c.blue) + rest) == c
  {
    var s := "#" + Hex2(c.red) + Hex2(c.green) + Hex2(c.blue) + rest;
    assert s[1..3] == Hex2(c.red) && s[3..5] == Hex2(c.green) && s[5..7] == Hex2(c.blue);
    HexPairOfHex2(c.red);
    HexPairOfHex2(c.green);
    HexPairOfHex2(c.blue);
  }

  /** Two upper-case hexadecimal digits read back as their byte. */
  lemma {:induction false} HexPairOfHex2(b: Byte)
    ensures HexPair(Hex2(b)[0], Hex2(b)[1]) == b
  {
    var h := Hex2(b);
    assert !IsCSpace(h[0]) && h[0] != '+' && h[0] != '-';
  }

  /** The integer luma `(299 r + 587 g + 114 b) / 1000`. */
  function Luminance(c: Rgb): (l: int)
    ensures 0 <= l <= 255
  {
    (299 * c.red + 587 * c.green + 114 * c.blue) / 1000
  }

  /** UseDarkText: dark text on a background whose luma exceeds 128. */
  predicate UseDarkText(c: Rgb) {
    Luminance(c) > 128
  }

  /** A background at least as light in every channel never needs lighter text. */
  lemma {:induction false} UseDarkTextMonotone(c: Rgb, d: Rgb)
    requires c.red <= d.red && c.green <= d.green && c.blue <= d.blue
    ensures UseDarkText(c) ==> UseDarkText(d)
  {
  }

  /** White takes dark text, black and the default gray take light text. */
  lemma {:induction false} UseDarkTextExtremes()
    ensures UseDarkText(Rgb(255, 255, 255))
    ensures !UseDarkText(Rgb(0, 0, 0)) && !UseDarkText(DEFAULT_GRAY)
  {
  }

  /** The colour of an event: its own colour when it has one, else its calendar's. */
  function EventColor(e: Events.CalendarEvent): (c: Rgb)
    ensures e.eventColor != [] ==> c == ParseHexColor(e.eventColor)
    ensures e.eventColor == [] ==> c == ParseHexColor(e.calendarColor)
  {
    ParseHexColor(if |e.eventColor| > 0 then e.eventColor else e.calendarColor)
  }

  // ---------------------------------------------------------------------------
  // Short start time
  // ---------------------------------------------------------------------------

  /** The short time of a 24-hour hour and minute: "h" or "h:MM", then "am" or "pm". */
  function ShortText(h: int, m: nat): (s: string)
    requires 0 <= h < 24 && m < 60
    ensures |s| <= 7
  {
    var ampm := if h < 12 then "am" else "pm";
    assert |NatToString(Clock.Hour12(h))| <= 2;
    if m == 0 then NatToString(Clock.Hour12(h)) + ampm
    else Clock.HourMinuteText(h, m) + ampm
  }

  /** FormatShortTime: the short time of the local hour and minute, cut to its 16-character buffer. */
  function FormatShortTime(utc: u32, offset: int): (s: string)
    ensures |s| < SHORT_TIME_SIZE
  {
    var t := Clock.TimeOfDayOf(LocalTime(utc, offset));
    Truncate(ShortText(t.hours, t.minutes), SHORT_TIME_SIZE)
  }

  /**
   The short time names the hour and minute: the leading digits are the 12-hour
   hour, a ':' and two minute digits follow exactly when the minute is not 0,
   and the "am"/"pm" ending together with that hour gives back the 24-hour hour.
   */
  lemma {:induction false} ShortTextReadsBack(h: int, m: nat)
    requires 0 <= h < 24 && m < 60
    ensures var s := ShortText(h, m);
            var n := DigitRun(s);
            1 <= n <= 2 && n + 2 <= |s| && DecimalValue(s[..n]) == Clock.Hour12(h)
            && (m == 0 ==> s[n..] == (if Clock.IsPm(h) then "pm" else "am"))
            && (m != 0 ==> Clock.ReadHourMinute(s) == Some((Clock.Hour12(h), m, n + 3))
                           && s[n + 3..] == (if Clock.IsPm(h) then "pm" else "am"))
            && Clock.Hour24(DecimalValue(s[..n]), s[|s| - 2..] == "pm") == h
  {
    var hs := NatToString(Clock.Hour12(h));
    var ampm := if Clock.IsPm(h) then "pm" else "am";
    Clock.Hour12Inverts(h);
    if m == 0 {
      Clock.HourTextParts(h, ampm);
      assert ShortText(h, m) == hs + ampm;
    } else {
      Clock.HourMinuteTextParts(h, m, ampm);
      assert ShortText(h, m) == Clock.HourMinuteText(h, m) + ampm;
    }
  }

  /** The 16-character buffer never cuts the widget's start time of an event: it is the short time of the local hour and minute. */
  lemma {:induction false} ShortTimeIsLocal(utc: u32, offset: int)
    ensures var t := Clock.TimeOfDayOf(LocalTime(utc, offset));
            FormatShortTime(utc, offset) == ShortText(t.hours, t.minutes)
            && t.hours * 3600 + t.minutes * 60 + t.seconds == (utc + offset) % TWO32 % Timestamp.SECONDS_PER_DAY
  {
  }

  // ---------------------------------------------------------------------------
  // Events of a day
  // ---------------------------------------------------------------------------

  /** The day number an event falls on: UTC days for an all-day event, local days otherwise. */
  function EventDay(e: Events.CalendarEvent, offsetAt: u32 -> int): nat {
    if e.allDay then e.startTime / Timestamp.SECONDS_PER_DAY
    else LocalDay(e.startTime, offsetAt(e.startTime))
  }

  /** The date walk of GetEventsForDay (the walk of Timestamp.TimestampToDate) hits the given date. */
  predicate OnDay(e: Events.CalendarEvent, date: Civil.Date, offsetAt: u32 -> int) {
    Timestamp.TimestampToDate(if e.allDay then e.startTime else LocalTime(e.startTime, offsetAt(e.startTime))) == date
  }

  /** An event is listed on a valid date exactly when its day number is that date's. */
  lemma {:induction false} OnDayIsDayNumber(e: Events.CalendarEvent, date: Civil.Date, offsetAt: u32 -> int)
    requires Civil.ValidDate(date) && date.year >= 1970
    ensures OnDay(e, date, offsetAt) <==> EventDay(e, offsetAt) == Civil.DaysFromCivil(date)
  {
    var t := if e.allDay then e.startTime else LocalTime(e.startTime, offsetAt(e.startTime));
    Timestamp.TimestampToDateIsCivil(t);
    Civil.CivilRoundTrip(date);
  }

  /** The test the collecting loop applies to each event. */
  function OnDayTest(date: Civil.Date, offsetAt: u32 -> int): Events.CalendarEvent -> bool {
    e => OnDay(e, date, offsetAt)
  }

  /** The elements of es that pass keep, in list order: the reference for the collecting loop. */
  function Matching<T>(es: seq<T>, keep: T -> bool): (r: seq<T>)
    ensures |r| <= |es|
    ensures forall k | 0 <= k < |r| :: keep(r[k]) && r[k] in es
  {
    if es == [] then []
    else
      var init := Matching(es[..|es| - 1], keep);
      var last := es[|es| - 1];
      init + (if keep(last) then [last] else [])
  }

  /** The matches of a prefix are a prefix of the matches. */
  lemma {:induction false} MatchingPrefix<T>(es: seq<T>, i: nat, keep: T -> bool)
    requires i <= |es|
    ensures Matching(es[..i], keep) <= Matching(es, keep)
    decreases |es|
  {
    if i < |es| {
      var init := es[..|es| - 1];
      assert es[..i] == init[..i];
      MatchingPrefix(init, i, keep);
    } else {
      assert es[..i] == es;
    }
  }

  /** One more element adds it to the matches exactly when it passes. */
  lemma {:induction false} MatchingStep<T>(es: seq<T>, i: nat, keep: T -> bool)
    requires i < |es|
    ensures Matching(es[..i + 1], keep) == Matching(es[..i], keep) + (if keep(es[i]) then [es[i]] else [])
  {
    assert es[..i + 1][..i] == es[..i];
  }

  /** Every element that passes is among the matches. */
  lemma {:induction false} MatchingComplete<T>(es: seq<T>, keep: T -> bool, x: T)
    requires x in es && keep(x)
    ensures x in Matching(es, keep)
    decreases |es|
  {
    var init := es[..|es| - 1];
    if x != es[|es| - 1] {
      assert x in init by {
        var k :| 0 <= k < |es| && es[k] == x;
        assert init[k] == x;
      }
      MatchingComplete(init, keep, x);
    }
  }

  /** The first n elements of s, all of s when it is shorter. */
  function Take<T>(s: seq<T>, n: nat): (r: seq<T>)
    ensures r <= s && |r| == if |s| <= n then |s| else n
  {
    if |s| <= n then s else s[..n]
  }

  /** The collecting loop of GetEventsForDay: the events that pass, in order, until maxEvents are found. */
  method CollectEvents<T>(es: seq<T>, keep: T -> bool, maxEvents: nat) returns (out: seq<T>)
    ensures out == Take(Matching(es, keep), maxEvents)
  {
    out := [];
    var i := 0;
    while i < |es| && |out| < maxEvents
      invariant 0 <= i <= |es|
      invariant out == Matching(es[..i], keep)
      invariant |out| <= maxEvents
    {
      MatchingStep(es, i, keep);
      if keep(es[i]) {
        out := out + [es[i]];
      }
      i := i + 1;
    }
    MatchingPrefix(es, i, keep);
    var all := Matching(es, keep);
    if i == |es| {
      assert es[..i] == es;
    } else {
      assert out <= all && |out| == maxEvents;
      assert all[..maxEvents] == out;
    }
  }

  /** The sort key: all-day events before timed ones, then by start time. */
  function Key(e: Events.CalendarEvent): int {
    (if e.allDay then 0 else TWO32) + e.startTime
  }

  /** The swap test of the sort: later all-day before earlier timed, or same kind and earlier start. */
  predicate SwapNeeded(ei: Events.CalendarEvent, ej: Events.CalendarEvent) {
    (ej.allDay && !ei.allDay) || (ei.allDay == ej.allDay && ej.startTime < ei.startTime)
  }

  /** The swap test is exactly "the later event's key is smaller". */
  lemma {:induction false} SwapNeededIsKeyOrder(ei: Events.CalendarEvent, ej: Events.CalendarEvent)
    ensures SwapNeeded(ei, ej) <==> Key(ej) < Key(ei)
  {
  }

  predicate SortedByKey(a: seq<Events.CalendarEvent>) {
    forall p, q | 0 <= p < q < |a| :: Key(a[p]) <= Key(a[q])
  }

  /** a with the elements at i and j exchanged. */
  function Swap<T>(a: seq<T>, i: nat, j: nat): (r: seq<T>)
    requires i < j < |a|
    ensures |r| == |a| && multiset(r) == multiset(a)
    ensures r[i] == a[j] && r[j] == a[i] && forall k | 0 <= k < |a| && k != i && k != j :: r[k] == a[k]
  {
    a[i := a[j]][j := a[i]]
  }

  /** The exchange sort of GetEventsForDay: for each i, swap a[i] with every later a[j] that should precede it. */
  method ExchangeSort(a0: seq<Events.CalendarEvent>) returns (a: seq<Events.CalendarEvent>)
    ensures |a| == |a0| && multiset(a) == multiset(a0)
    ensures SortedByKey(a)
  {
    a := a0;
    var i := 0;
    while i < |a| - 1
      invariant 0 <= i <= |a| && |a| == |a0| && multiset(a) == multiset(a0)
      invariant forall p, q | 0 <= p < i && p < q < |a| :: Key(a[p]) <= Key(a[q])
    {
      var j := i + 1;
      while j < |a|
        invariant i < j <= |a| && |a| == |a0| && multiset(a) == multiset(a0)
        invariant forall p, q | 0 <= p < i && p < q < |a| :: Key(a[p]) <= Key(a[q])
        invariant forall q | i < q < j :: Key(a[i]) <= Key(a[q])
      {
        SwapNeededIsKeyOrder(a[i], a[j]);
        if SwapNeeded(a[i], a[j]) {
          a := Swap(a, i, j);
        }
        j := j + 1;
      }
      i := i + 1;
    }
  }

  /**
   GetEventsForDay: the first maxEvents events on the date, in list order, then
   sorted all-day first and by start time.
   */
  method GetEventsForDay(es: seq<Events.CalendarEvent>, date: Civil.Date, maxEvents: nat, offsetAt: u32 -> int)
    returns (out: seq<Events.CalendarEvent>)
    ensures multiset(out) == multiset(Take(Matching(es, OnDayTest(date, offsetAt)), maxEvents))
    ensures |out| <= maxEvents && SortedByKey(out)
    ensures forall k | 0 <= k < |out| :: OnDay(out[k], date, offsetAt) && out[k] in es
  {
    var found := CollectEvents(es, OnDayTest(date, offsetAt), maxEvents);
    out := ExchangeSort(found);
    forall k | 0 <= k < |out| ensures OnDay(out[k], date, offsetAt) && out[k] in es {
      assert out[k] in multiset(found);
    }
  }

  // ---------------------------------------------------------------------------
  // The event list
  // ---------------------------------------------------------------------------

  /** AddEvent: appended while fewer than MAX_EVENTS are held, else dropped. */
  function AddEvent(es: seq<Events.CalendarEvent>, e: Events.CalendarEvent): (r: seq<Events.CalendarEvent>)
    requires |es| <= MAX_EVENTS
    ensures |r| <= MAX_EVENTS
    ensures |es| < MAX_EVENTS ==> r == es + [e]
    ensures |es| == MAX_EVENTS ==> r == es
  {
    if |es| < MAX_EVENTS then es + [e] else es
  }

  /** ClearEvents: no events. */
  function ClearEvents(): (r: seq<Events.CalendarEvent>)
    ensures |r| == 0
  {
    []
  }
}
