/**
 The upcoming-events list: which events are kept (future ones, and timed ones
 that began less than an hour ago), the stable insertion sort by local start
 time, the date label of each row ("Today at 3 PM", "Tomorrow", "Friday",
 "Mar 1st"), how many rows fit, and the fade of the last three rows. The event
 colour is CalendarWidget.ParseHexColor, the same code in both widgets.
 */
module UpcomingEvents {
  import opened Machine
  import opened Text
  import Civil
  import Timestamp
  import Weekdays
  import Clock
  import Events
  import DateTimeWidget
  import CalendarWidget
  import opened Wrappers

  const MAX_EVENTS: nat := 100
  const DATE_LABEL_SIZE: nat := 32
  const ROW_HEIGHT: int := 30
  const ROW_GAP: int := 4
  const HOUR: int := 3600

  // ---------------------------------------------------------------------------
  // Date labels
  // ---------------------------------------------------------------------------

  /** The ordinal suffix ladder: "st" for 1, 21, 31; "nd" for 2, 22; "rd" for 3, 23; "th" otherwise. */
  function OrdinalSuffix(day: int): (s: string)
    ensures |s| == 2
  {
    if day == 1 || day == 21 || day == 31 then "st"
    else if day == 2 || day == 22 then "nd"
    else if day == 3 || day == 23 then "rd"
    else "th"
  }

  /** English ordinal suffixes: "th" for the teens 11 to 13 of each hundred, else by the last digit. */
  function EnglishOrdinal(n: nat): (s: string) {
    if 11 <= n % 100 <= 13 then "th"
    else if n % 10 == 1 then "st"
    else if n % 10 == 2 then "nd"
    else if n % 10 == 3 then "rd"
    else "th"
  }

  /** Over the days of a month the ladder gives the English ordinal. */
  lemma {:induction false} OrdinalSuffixIsEnglish(day: int)
    requires 1 <= day <= 31
    ensures OrdinalSuffix(day) == EnglishOrdinal(day)
  {
  }

  /** " AM" or " PM" after a 12-hour time. */
  function Meridiem(h: int): (s: string)
    ensures |s| == 3 && s[0] == ' '
  {
    if Clock.IsPm(h) then " PM" else " AM"
  }

  /** The "%d %s" or "%d:%02d %s" time of a local hour and minute. */
  function AtTime(h: int, m: nat): (s: string)
    requires 0 <= h < 24 && m < 60
    ensures 4 <= |s| <= 8
  {
    assert |NatToString(Clock.Hour12(h))| <= 2;
    if m == 0 then NatToString(Clock.Hour12(h)) + Meridiem(h)
    else Clock.HourMinuteText(h, m) + Meridiem(h)
  }

  /**
   The time reads back: the leading digits are the 12-hour hour, ":MM" follows
   exactly when the minute is not 0, and the hour with the AM/PM ending is the
   24-hour hour.
   */
  lemma {:induction false} AtTimeReadsBack(h: int, m: nat)
    requires 0 <= h < 24 && m < 60
    ensures var s := AtTime(h, m);
            var n := DigitRun(s);
            1 <= n <= 2 && n + 3 <= |s| && DecimalValue(s[..n]) == Clock.Hour12(h)
            && s[|s| - 3..] == Meridiem(h)
            && (m == 0 <==> n + 3 == |s|)
            && (m != 0 ==> Clock.ReadHourMinute(s) == Some((Clock.Hour12(h), m, n + 3)))
            && Clock.Hour24(DecimalValue(s[..n]), s[|s| - 2..] == "PM") == h
  {
    var hs := NatToString(Clock.Hour12(h));
    var ending := Meridiem(h);
    Clock.Hour12Inverts(h);
    if m == 0 {
      Clock.HourTextParts(h, ending);
      var s := hs + ending;
      assert AtTime(h, m) == s;
      assert s[|s| - 3..] == ending && s[|s| - 2..] == ending[1..];
    } else {
      Clock.HourMinuteTextParts(h, m, ending);
      var s := Clock.HourMinuteText(h, m) + ending;
      assert AtTime(h, m) == s;
      assert s[|s| - 3..] == ending && s[|s| - 2..] == ending[1..];
    }
  }

  /** The whole local days since 1970 of an event: UTC days when it lasts all day. */
  function EventDays(e: Events.CalendarEvent, offsetAt: u32 -> int): nat {
    if e.allDay then e.startTime / Timestamp.SECONDS_PER_DAY
    else CalendarWidget.LocalDay(e.startTime, offsetAt(e.startTime))
  }

  /** The seconds the time of day of an event is read from: the local start, or the UTC start when it lasts all day. */
  function EventTime(e: Events.CalendarEvent, offsetAt: u32 -> int): u32 {
    if e.allDay then e.startTime else CalendarWidget.LocalTime(e.startTime, offsetAt(e.startTime))
  }

  /** The "Today"/"Tomorrow" label: the word alone for an all-day event, else with " at " and the time. */
  function NearLabel(word: string, e: Events.CalendarEvent, offsetAt: u32 -> int): string {
    if e.allDay then word
    else
      var t := Clock.TimeOfDayOf(EventTime(e, offsetAt));
      word + " at " + AtTime(t.hours, t.minutes)
  }

  /** "Mon D" and the ordinal suffix of a date. */
  function MonthDayLabel(d: Civil.Date): string
    requires 1 <= d.month <= 12 && d.day >= 1
  {
    CalendarWidget.MONTH_SHORT[d.month - 1] + " " + NatToString(d.day) + OrdinalSuffix(d.day)
  }

  /**
   FormatEventDate: by the difference of the event's and today's local day
   numbers, "Today…", "Tomorrow…", the weekday name (for every other difference
   below 7, past days included), or the month and day; cut to the 32-byte buffer.
   */
  function FormatEventDate(e: Events.CalendarEvent, now: u32, offsetAt: u32 -> int): (s: string)
    ensures |s| < DATE_LABEL_SIZE
  {
    var nowDays := CalendarWidget.LocalDay(now, offsetAt(now));
    var eventDays := EventDays(e, offsetAt);
    var diff := eventDays - nowDays;
    var text :=
      if diff == 0 then NearLabel("Today", e, offsetAt)
      else if diff == 1 then NearLabel("Tomorrow", e, offsetAt)
      else if diff < 7 then DateTimeWidget.DayName(Civil.Weekday(eventDays))
      else MonthDayLabel(Civil.CivilFromDays(eventDays));
    Truncate(text, DATE_LABEL_SIZE)
  }

  /** The buffer never cuts a "Today" or "Tomorrow" label. */
  lemma {:induction false} NearLabelsNotCut(e: Events.CalendarEvent, now: u32, offsetAt: u32 -> int)
    ensures var nowDays := CalendarWidget.LocalDay(now, offsetAt(now));
            var diff := EventDays(e, offsetAt) - nowDays;
            (diff == 0 ==> FormatEventDate(e, now, offsetAt) == NearLabel("Today", e, offsetAt))
            && (diff == 1 ==> FormatEventDate(e, now, offsetAt) == NearLabel("Tomorrow", e, offsetAt))
  {
  }

  /**
   An event today or tomorrow is labelled with the word and, when it is timed,
   with a time that reads back as its local hour and minute.
   */
  lemma {:induction false} NearLabelNamesTime(word: string, e: Events.CalendarEvent, offsetAt: u32 -> int)
    ensures e.allDay ==> NearLabel(word, e, offsetAt) == word
    ensures !e.allDay ==>
              var t := Clock.TimeOfDayOf(CalendarWidget.LocalTime(e.startTime, offsetAt(e.startTime)));
              var s := NearLabel(word, e, offsetAt);
              var rest := s[|word| + 4..];
              |s| > |word| + 4 && s[..|word| + 4] == word + " at "
              && rest == AtTime(t.hours, t.minutes)
              && t.hours * 3600 + t.minutes * 60 + t.seconds == (e.startTime + offsetAt(e.startTime)) % TWO32 % Timestamp.SECONDS_PER_DAY
  {
    if !e.allDay {
      var t := Clock.TimeOfDayOf(EventTime(e, offsetAt));
      var s := NearLabel(word, e, offsetAt);
      var at := AtTime(t.hours, t.minutes);
      assert s == (word + " at ") + at;
      assert s[..|word| + 4] == word + " at " && s[|word| + 4..] == at;
    }
  }

  /**
   An event two to six days ahead, or on an earlier day, is labelled with the
   name of the weekday of its date.
   */
  lemma {:induction false} WeekLabelNamesWeekday(e: Events.CalendarEvent, now: u32, offsetAt: u32 -> int, d: Civil.Date)
    requires Civil.ValidDate(d) && Civil.DaysFromCivil(d) == EventDays(e, offsetAt)
    requires var diff := EventDays(e, offsetAt) - CalendarWidget.LocalDay(now, offsetAt(now));
             diff < 7 && diff != 0 && diff != 1
    ensures FormatEventDate(e, now, offsetAt) == DateTimeWidget.DAY_NAMES[Weekdays.DayOfWeek(d.year, d.month, d.day)]
  {
  }

  /** An event a week or more ahead is labelled with the month and ordinal day of its date. */
  lemma {:induction false} FarLabelNamesDate(e: Events.CalendarEvent, now: u32, offsetAt: u32 -> int, d: Civil.Date)
    requires Civil.ValidDate(d) && d.year >= 1970 && Civil.DaysFromCivil(d) == EventDays(e, offsetAt)
    requires EventDays(e, offsetAt) - CalendarWidget.LocalDay(now, offsetAt(now)) >= 7
    ensures FormatEventDate(e, now, offsetAt)
            == CalendarWidget.MONTH_SHORT[d.month - 1] + " " + NatToString(d.day) + EnglishOrdinal(d.day)
  {
    Civil.CivilRoundTrip(d);
    OrdinalSuffixIsEnglish(d.day);
    var text := MonthDayLabel(d);
    assert |NatToString(d.day)| <= 2 && |CalendarWidget.MONTH_SHORT[d.month - 1]| == 3;
    assert FormatEventDate(e, now, offsetAt) == Truncate(text, DATE_LABEL_SIZE);
  }

  // ---------------------------------------------------------------------------
  // Which events are listed, and in what order
  // ---------------------------------------------------------------------------

  /**
   The filter of RenderEvents: a timed event is dropped when it started before
   `now - 3600` (an unsigned subtraction), an all-day event when its UTC day is
   before the local today.
   */
  predicate Keep(e: Events.CalendarEvent, now: u32, nowOffset: int) {
    if e.allDay then e.startTime / Timestamp.SECONDS_PER_DAY >= CalendarWidget.LocalDay(now, nowOffset)
    else e.startTime >= U32(now - HOUR)
  }

  /** From an hour after the epoch on, a timed event is kept exactly when it began at most an hour ago. */
  lemma {:induction false} KeepTimed(e: Events.CalendarEvent, now: u32, nowOffset: int)
    requires !e.allDay && now >= HOUR
    ensures Keep(e, now, nowOffset) <==> e.startTime + HOUR >= now
  {
  }

  /**
   In the first hour after the epoch (a clock not yet set) the subtraction wraps,
   and every timed event before the last hour of the 32-bit range is dropped.
   */
  lemma {:induction false} KeepTimedBeforeClockSet(e: Events.CalendarEvent, now: u32, nowOffset: int)
    requires !e.allDay && now < HOUR
    ensures Keep(e, now, nowOffset) <==> e.startTime >= TWO32 - HOUR + now
  {
  }

  /** The sort value: the UTC start of an all-day event, the local start (at today's offset) of a timed one. */
  function SortKey(e: Events.CalendarEvent, offset: int): u32 {
    if e.allDay then e.startTime else CalendarWidget.LocalTime(e.startTime, offset)
  }

  /** The sort value as the function the insertion compares by. */
  function KeyAt(offset: int): Events.CalendarEvent -> int {
    e => SortKey(e, offset)
  }

  /** s is ascending by key. */
  predicate SortedBy<T>(s: seq<T>, key: T -> int) {
    forall p, q | 0 <= p < q < |s| :: key(s[p]) <= key(s[q])
  }

  /** Where the shifting loop stores x: after the last element whose key is not above x's. */
  function InsertPos<T>(s: seq<T>, x: T, key: T -> int): (j: nat)
    ensures j <= |s| && (j == 0 || key(s[j - 1]) <= key(x))
    ensures forall k | j <= k < |s| :: key(s[k]) > key(x)
    decreases |s|
  {
    if s == [] || key(s[|s| - 1]) <= key(x) then |s| else InsertPos(s[..|s| - 1], x, key)
  }

  /** Only one place has every later key above x's and the earlier key not above it. */
  lemma {:induction false} InsertPosUnique<T>(s: seq<T>, x: T, key: T -> int, j: nat)
    requires j <= |s| && (j == 0 || key(s[j - 1]) <= key(x))
    requires forall k | j <= k < |s| :: key(s[k]) > key(x)
    ensures j == InsertPos(s, x, key)
  {
    var p := InsertPos(s, x, key);
    if j < p {
      assert false;
    } else if p < j {
      assert false;
    }
  }

  /** x inserted into s at InsertPos: the shifting loop's result. */
  function Insert<T>(s: seq<T>, x: T, key: T -> int): (r: seq<T>)
    ensures |r| == |s| + 1 && multiset(r) == multiset(s) + multiset{x}
  {
    var j := InsertPos(s, x, key);
    assert s == s[..j] + s[j..];
    s[..j] + [x] + s[j..]
  }

  /** The insertion keeps a sorted list sorted. */
  lemma {:induction false} InsertSorted<T>(s: seq<T>, x: T, key: T -> int)
    requires SortedBy(s, key)
    ensures SortedBy(Insert(s, x, key), key)
  {
    var j := InsertPos(s, x, key);
    var r := Insert(s, x, key);
    assert r == s[..j] + [x] + s[j..];
    forall p, q | 0 <= p < q < |r|
      ensures key(r[p]) <= key(r[q])
    {
      if q < j {
        assert r[p] == s[p] && r[q] == s[q];
      } else if q == j {
        assert r[p] == s[p] && r[q] == x && key(s[p]) <= key(s[j - 1]);
      } else if p < j {
        assert r[p] == s[p] && r[q] == s[q - 1];
      } else if p == j {
        assert r[p] == x && r[q] == s[q - 1];
      } else {
        assert r[p] == s[p - 1] && r[q] == s[q - 1];
      }
    }
  }

  /** The insertion shifting loop of RenderEvents: move larger keys up one place from the end, then store x. */
  method InsertShifting<T>(s: seq<T>, x: T, key: T -> int) returns (a: seq<T>)
    ensures a == Insert(s, x, key)
  {
    a := s + [x];
    var j := |s|;
    while j > 0 && key(a[j - 1]) > key(x)
      invariant 0 <= j <= |s| && |a| == |s| + 1
      invariant forall k | 0 <= k < j :: a[k] == s[k]
      invariant forall k | j < k <= |s| :: a[k] == s[k - 1]
      invariant forall k | j <= k < |s| :: key(s[k]) > key(x)
    {
      a := a[j := a[j - 1]];
      j := j - 1;
    }
    a := a[j := x];
    InsertPosUnique(s, x, key, j);
    assert a == s[..j] + [x] + s[j..];
  }

  /** The elements of s with the sort key k, in order. */
  function WithKey<T>(s: seq<T>, key: T -> int, k: int): (r: seq<T>)
    ensures |r| <= |s|
  {
    if s == [] then []
    else WithKey(s[..|s| - 1], key, k) + (if key(s[|s| - 1]) == k then [s[|s| - 1]] else [])
  }

  /**
   The insertion is stable: events with the same key keep the order in which
   they were inserted, and x comes after every earlier event with its key.
   */
  lemma {:induction false} InsertStable<T>(s: seq<T>, x: T, key: T -> int, k: int)
    ensures WithKey(Insert(s, x, key), key, k) == WithKey(s, key, k) + (if key(x) == k then [x] else [])
  {
    var j := InsertPos(s, x, key);
    assert s == s[..j] + s[j..];
    WithKeyAppend(s[..j] + [x], s[j..], key, k);
    WithKeyAppend(s[..j], s[j..], key, k);
    WithKeyLast(s[..j], x, key, k);
    if key(x) == k {
      WithKeyNone(s[j..], key, k);
    }
  }

  /** No element with the key: nothing selected. */
  lemma {:induction false} WithKeyNone<T>(t: seq<T>, key: T -> int, k: int)
    requires forall i | 0 <= i < |t| :: key(t[i]) != k
    ensures WithKey(t, key, k) == []
    decreases |t|
  {
    if t != [] {
      WithKeyNone(t[..|t| - 1], key, k);
    }
  }

  /** An element appended at the end is appended to the elements with its key. */
  lemma {:induction false} WithKeyLast<T>(s: seq<T>, x: T, key: T -> int, k: int)
    ensures WithKey(s + [x], key, k) == WithKey(s, key, k) + (if key(x) == k then [x] else [])
  {
    assert (s + [x])[..|s|] == s;
  }

  /**
   The sorting loop of RenderEvents: kept events are inserted one by one, and the
   loop stops once MAX_EVENTS are held.
   */
  function SortUpcoming(es: seq<Events.CalendarEvent>, now: u32, nowOffset: int, acc: seq<Events.CalendarEvent>): (r: seq<Events.CalendarEvent>)
    decreases |es|
  {
    if es == [] then acc
    else if !Keep(es[0], now, nowOffset) then SortUpcoming(es[1..], now, nowOffset, acc)
    else
      var acc' := Insert(acc, es[0], KeyAt(nowOffset));
      if |acc'| >= MAX_EVENTS then acc' else SortUpcoming(es[1..], now, nowOffset, acc')
  }

  /** The events the filter keeps, in list order. */
  function Kept(es: seq<Events.CalendarEvent>, now: u32, nowOffset: int): (r: seq<Events.CalendarEvent>)
    decreases |es|
  {
    if es == [] then [] else (if Keep(es[0], now, nowOffset) then [es[0]] else []) + Kept(es[1..], now, nowOffset)
  }

  lemma {:induction false} WithKeyAppend<T>(a: seq<T>, b: seq<T>, key: T -> int, k: int)
    ensures WithKey(a + b, key, k) == WithKey(a, key, k) + WithKey(b, key, k)
    decreases |b|
  {
    if b == [] {
      assert a + b == a;
    } else {
      var b' := b[..|b| - 1];
      assert (a + b)[..|a + b| - 1] == a + b';
      WithKeyAppend(a, b', key, k);
    }
  }

  /**
   With at most MAX_EVENTS events (the most AddEvent holds) the list shows every
   kept event, ascending by sort key, events with equal keys in list order.
   */
  lemma {:induction false} SortUpcomingSpec(es: seq<Events.CalendarEvent>, now: u32, nowOffset: int, acc: seq<Events.CalendarEvent>)
    requires SortedBy(acc, KeyAt(nowOffset)) && |acc| + |es| <= MAX_EVENTS
    ensures var r := SortUpcoming(es, now, nowOffset, acc);
            SortedBy(r, KeyAt(nowOffset))
            && multiset(r) == multiset(acc) + multiset(Kept(es, now, nowOffset))
            && forall k :: WithKey(r, KeyAt(nowOffset), k) == WithKey(acc + Kept(es, now, nowOffset), KeyAt(nowOffset), k)
    decreases |es|
  {
    if es != [] {
      var kept := Kept(es[1..], now, nowOffset);
      if !Keep(es[0], now, nowOffset) {
        SortUpcomingSpec(es[1..], now, nowOffset, acc);
        assert Kept(es, now, nowOffset) == kept;
      } else {
        var acc' := Insert(acc, es[0], KeyAt(nowOffset));
        InsertSorted(acc, es[0], KeyAt(nowOffset));
        assert Kept(es, now, nowOffset) == [es[0]] + kept;
        assert acc + Kept(es, now, nowOffset) == (acc + [es[0]]) + kept;
        forall k ensures WithKey(acc', KeyAt(nowOffset), k) == WithKey(acc + [es[0]], KeyAt(nowOffset), k) {
          InsertStable(acc, es[0], KeyAt(nowOffset), k);
          WithKeyAppend(acc, [es[0]], KeyAt(nowOffset), k);
          assert WithKey([es[0]], KeyAt(nowOffset), k) == [] + (if KeyAt(nowOffset)(es[0]) == k then [es[0]] else []);
        }
        if |acc'| >= MAX_EVENTS {
          assert |es| == 1;
          assert es[1..] == [];
          assert kept == [];
          assert acc + Kept(es, now, nowOffset) == acc + [es[0]];
        } else {
          SortUpcomingSpec(es[1..], now, nowOffset, acc');
          forall k ensures WithKey(acc' + kept, KeyAt(nowOffset), k) == WithKey(acc + [es[0]] + kept, KeyAt(nowOffset), k) {
            WithKeyAppend(acc', kept, KeyAt(nowOffset), k);
            WithKeyAppend(acc + [es[0]], kept, KeyAt(nowOffset), k);
          }
        }
      }
    } else {
      assert acc + Kept(es, now, nowOffset) == acc;
    }
  }

  // ---------------------------------------------------------------------------
  // Rows
  // ---------------------------------------------------------------------------

  /**
   visibleRows: the 30-pixel rows with 4-pixel gaps that fit the list's height,
   all m_maxEvents when the height is not known yet, clamped to 1..m_maxEvents.
   */
  function VisibleRows(height: int, maxEvents: int): (r: int)
    ensures 1 <= r && (maxEvents >= 1 ==> r <= maxEvents)
    ensures height <= 0 ==> r == if maxEvents >= 1 then maxEvents else 1
    ensures height > 0 && 1 < r ==> r * ROW_HEIGHT + (r - 1) * ROW_GAP <= height
    ensures height > 0 && r < maxEvents ==> (r + 1) * ROW_HEIGHT + r * ROW_GAP > height
  {
    var fit := if height > 0 then (height + ROW_GAP) / (ROW_HEIGHT + ROW_GAP) else maxEvents;
    var capped := if fit > maxEvents then maxEvents else fit;
    if capped < 1 then 1 else capped
  }

  /** The rows drawn: the sorted events, as many as are visible. */
  function RowsShown(sortedCount: nat, visible: int): (n: int)
    requires visible >= 1
    ensures 0 <= n <= sortedCount && n <= visible
    ensures n == sortedCount || n == visible
  {
    if sortedCount < visible then sortedCount else visible
  }

  /** The opacity of row i of n: 255, except the last three rows fade by 60 a row, never below 80. */
  function Opacity(i: int, n: int): (o: int)
    ensures 80 <= o <= 255
  {
    var fadeStart := n - 3;
    if i >= fadeStart && fadeStart >= 0 then
      var o := 255 - (i - fadeStart) * 60;
      if o < 80 then 80 else o
    else 255
  }

  /**
   With three or more rows the last three are drawn at 255, 195 and 135 and the
   rest fully opaque; with fewer than three there is no fade at all; the
   opacity never increases down the list.
   */
  lemma {:induction false} OpacityFade(n: int)
    ensures n >= 3 ==> Opacity(n - 3, n) == 255 && Opacity(n - 2, n) == 195 && Opacity(n - 1, n) == 135
    ensures n >= 3 ==> forall i | 0 <= i < n - 3 :: Opacity(i, n) == 255
    ensures n < 3 ==> forall i | 0 <= i < n :: Opacity(i, n) == 255
    ensures forall i, j | 0 <= i <= j < n :: Opacity(j, n) <= Opacity(i, n)
  {
  }

  // ---------------------------------------------------------------------------
  // The event list
  // ---------------------------------------------------------------------------

  /** AddEvent: appended while fewer than MAX_EVENTS are held, else dropped. */
  function AddEvent(es: seq<Events.CalendarEvent>, e: Events.CalendarEvent): (r: seq<Events.CalendarEvent>)
    requires |es| <= MAX_EVENTS
    ensures |r| <= MAX_EVENTS
    ensures |es| < MAX_EVENTS ==> r == es + [e]
    ensures |es| == MAX_EVENTS ==> r == es
  {
    if |es| < MAX_EVENTS then es + [e] else es
  }
}
