/**
 Weekday arithmetic of the firmware: Zeller's congruence as the C code computes
 it (GetDayOfWeek of the ICS parser and of the calendar widget, and the inline
 copies in the Nth-weekday helpers), the Nth weekday of a month, and the US and
 EU summer-time windows of the ICS parser.
 */
module Weekdays {
  import opened Machine
  import Civil

  // ---------------------------------------------------------------------------
  // Zeller's congruence, as written and as intended
  // ---------------------------------------------------------------------------

  /**
   Zeller's h (0 = Saturday) for day q, the way every copy in the firmware computes
   it: January and February become months 13 and 14 of the previous year, and the
   whole sum is evaluated in `unsigned`, so the `- 2*j` term wraps modulo 2^32
   whenever the true sum is negative.
   */
  function ZellerAsWritten(year: u32, month: u32, q: u32): (h: int)
    ensures 0 <= h < 7
  {
    var m := if month < 3 then month + 12 else month;
    var y := if month < 3 then U32(year - 1) else year;
    var k, j := y % 100, y / 100;
    U32(q + U32(13 * (m + 1)) / 5 + k + k / 4 + j / 4 - 2 * j) % 7
  }

  /** GetDayOfWeek of the ICS parser and of the calendar widget (Sunday = 0), as written. */
  function DayOfWeekAsWritten(year: u32, month: u32, day: u32): (r: int)
    ensures 0 <= r < 7
  {
    (ZellerAsWritten(year, month, day) + 6) % 7
  }

  /** The weekday (Sunday = 0) of a date: the reference the copies are held to. */
  function DayOfWeek(year: int, month: int, day: int): (r: int)
    requires 1 <= month <= 12
  {
    Civil.Weekday(Civil.DaysFromCivil(Civil.Date(year, month, day)))
  }

  /** GetDayOfWeek with Zeller's sum reduced by a true modulo: the corrected copy. */
  function DayOfWeekCorrected(year: int, month: int, day: int): (r: int)
    requires 1 <= month <= 12
    ensures r == DayOfWeek(year, month, day)
  {
    Civil.ZellerIsWeekday(Civil.Date(year, month, day));
    (Civil.ZellerH(year, month, day) + 6) % 7
  }

  /** Without a wrap, the unsigned evaluation is Zeller's congruence, so the copies give the true weekday. */
  lemma {:induction false} AsWrittenAgrees(year: u32, month: u32, day: u32)
    requires year >= 1 && Civil.ValidDate(Civil.Date(year, month, day))
    requires Civil.ZellerSum(year, month, day) >= 0
    ensures ZellerAsWritten(year, month, day) == Civil.ZellerH(year, month, day)
    ensures DayOfWeekAsWritten(year, month, day) == DayOfWeek(year, month, day)
  {
    var m := if month < 3 then month + 12 else month;
    assert U32(13 * (m + 1)) == 13 * (m + 1);
    assert U32(year - 1) == year - 1;
    assert Civil.ZellerSum(year, month, day) < TWO32;
    assert DayOfWeekAsWritten(year, month, day) == DayOfWeekCorrected(year, month, day);
  }

  /** From 2020 to 2099 the sum never goes negative, so the copies are right there. */
  lemma {:induction false} NoWrap2020To2099(year: u32, month: u32, day: u32)
    requires 2020 <= year <= 2099 && Civil.ValidDate(Civil.Date(year, month, day))
    ensures Civil.ZellerSum(year, month, day) >= 0
    ensures DayOfWeekAsWritten(year, month, day) == DayOfWeek(year, month, day)
  {
    AsWrittenAgrees(year, month, day);
  }

  /**
   1 March 2019 was a Friday; the unsigned evaluation wraps (the sum is -1) and
   reports a Tuesday.
   */
  lemma {:induction false} AsWrittenWrapsOn2019March1()
    ensures Civil.ZellerSum(2019, 3, 1) == -1
    ensures DayOfWeekCorrected(2019, 3, 1) == 5
    ensures DayOfWeekAsWritten(2019, 3, 1) == 2
  {
    assert U32(-1) == TWO32 - 1;
  }

  // ---------------------------------------------------------------------------
  // Nth weekday of a month
  // ---------------------------------------------------------------------------

  /**
   Weekday (Sunday = 0) of the first of the month. The helpers compute it with the
   unsigned Zeller sum of DayOfWeekAsWritten; the model uses the value of the
   corrected copy, which DayOfWeekCorrected proves to be DayOfWeek.
   */
  function FirstWeekday(year: u32, month: u32): (r: int)
    requires 1 <= month <= 12
    ensures 0 <= r < 7
  {
    DayOfWeek(year, month, 1)
  }

  /**
   The day arithmetic shared by the Nth-weekday helpers, once the month length and
   the weekday of the first are known: the first occurrence is
   `1 + (weekday - first + 7) % 7` (C remainder), week 5 means the last occurrence,
   and every other week adds whole weeks in `unsigned`.
   */
  function NthFromFirst(maxDay: int, first: int, week: u32, weekday: int): (day: u32)
  {
    var firstOccurrence := 1 + CRem(weekday - first + 7, 7);
    if week == 5 then
      var fourth := U32(firstOccurrence + 21);
      if U32(fourth + 7) <= maxDay then U32(fourth + 7) else fourth
    else
      U32(firstOccurrence + (week - 1) * 7)
  }

  /**
   GetNthWeekdayOfMonth (ICS parser) and GetNthWeekday (configuration), the same
   code: the day of the `week`-th `weekday` (Sunday = 0) of the month, week 5 meaning
   the last one. All arguments are unsigned; the month indexes a 12-entry table.
   */
  function NthWeekdayOfMonth(year: u32, month: u32, week: u32, weekday: u32): (day: u32)
    requires 1 <= month <= 12
  {
    NthFromFirst(Civil.DaysInMonth(year, month), FirstWeekday(year, month), week, I32(weekday))
  }

  /**
   GetNthWeekdayOfMonth and GetNthWeekday as written: the weekday of the first
   comes from the unsigned Zeller sum, which wraps in some months before 2020.
   */
  function NthWeekdayAsWritten(year: u32, month: u32, week: u32, weekday: u32): (day: u32)
    requires 1 <= month <= 12
  {
    NthFromFirst(Civil.DaysInMonth(year, month), DayOfWeekAsWritten(year, month, 1), week, I32(weekday))
  }

  /** From 2020 to 2099 the helpers as written give the Nth weekday the model uses. */
  lemma {:induction false} NthWeekdayAsWrittenAgrees(year: u32, month: u32, week: u32, weekday: u32)
    requires 2020 <= year <= 2099 && 1 <= month <= 12
    ensures NthWeekdayAsWritten(year, month, week, weekday) == NthWeekdayOfMonth(year, month, week, weekday)
  {
    assert Civil.ValidDate(Civil.Date(year, month, 1));
    NoWrap2020To2099(year, month, 1);
  }

  /**
   The second Sunday of March 2019, where US summer time begins, was the 10th; the
   helpers as written take 1 March for a Tuesday and answer the 13th.
   */
  lemma {:induction false} SecondSundayOfMarch2019()
    ensures NthWeekdayOfMonth(2019, 3, 2, 0) == 10
    ensures NthWeekdayAsWritten(2019, 3, 2, 0) == 13
  {
    AsWrittenWrapsOn2019March1();
    assert Civil.DaysInMonth(2019, 3) == 31;
    assert FirstWeekday(2019, 3) == 5;
  }

  /** Weekday of day d of a month, from the weekday of its first day. */
  lemma {:induction false} WeekdayInMonth(year: int, month: int, d: int)
    requires 1 <= month <= 12
    ensures DayOfWeek(year, month, d) == (DayOfWeek(year, month, 1) + d - 1) % 7
  {
    var n1 := Civil.DaysFromCivil(Civil.Date(year, month, 1));
    var n := Civil.DaysFromCivil(Civil.Date(year, month, d));
    assert n == n1 + d - 1;
    Civil.SameMod7(n + 4, (n1 + 4) % 7 + d - 1, (n1 + 4) / 7);
  }

  /** The first day of the month with the given weekday. */
  function FirstOccurrence(year: int, month: int, weekday: int): (d: int)
    requires 1 <= month <= 12 && 0 <= weekday < 7
    ensures 1 <= d <= 7
    ensures DayOfWeek(year, month, d) == weekday
  {
    var w1 := DayOfWeek(year, month, 1);
    var d := 1 + (weekday - w1 + 7) % 7;
    WeekdayInMonth(year, month, d);
    WeekdayStep(w1, weekday);
    d
  }

  /** Stepping from weekday w1 to the next `weekday` and back lands on `weekday`. */
  lemma {:induction false} WeekdayStep(w1: int, weekday: int)
    requires 0 <= w1 < 7 && 0 <= weekday < 7
    ensures (w1 + (1 + (weekday - w1 + 7) % 7) - 1) % 7 == weekday
  {
  }

  /** FirstOccurrence in closed form, for the helpers' proofs. */
  lemma {:induction false} FirstOccurrenceValue(year: int, month: int, weekday: int)
    requires 1 <= month <= 12 && 0 <= weekday < 7
    ensures FirstOccurrence(year, month, weekday) == 1 + (weekday - DayOfWeek(year, month, 1) + 7) % 7
  {
  }

  /** Whole weeks later in the month, the weekday is the same. */
  lemma {:induction false} WeekdayPlusWeeks(year: int, month: int, d: int, e: int, k: int)
    requires 1 <= month <= 12 && e == d + 7 * k
    ensures DayOfWeek(year, month, e) == DayOfWeek(year, month, d)
  {
    var w1 := DayOfWeek(year, month, 1);
    WeekdayInMonth(year, month, d);
    WeekdayInMonth(year, month, e);
    Civil.SameMod7(w1 + e - 1, w1 + d - 1, k);
  }

  /** Whole weeks the helpers add to the first occurrence f: week - 1, or for week 5 as many as stay in the month. */
  function WeeksAfterFirst(maxDay: int, f: int, week: int): int {
    if week < 5 then week - 1 else if f + 28 <= maxDay then 4 else 3
  }

  /** The helper's day is the first occurrence plus WeeksAfterFirst whole weeks. */
  lemma {:induction false} NthFromFirstWeeks(maxDay: int, first: int, week: u32, weekday: int, f: int)
    requires 28 <= maxDay <= 31 && 0 <= first < 7 && 0 <= weekday < 7 && 1 <= week <= 5
    requires f == 1 + (weekday - first + 7) % 7
    ensures NthFromFirst(maxDay, first, week, weekday) == f + 7 * WeeksAfterFirst(maxDay, f, week)
  {
    assert 1 + CRem(weekday - first + 7, 7) == f;
    assert U32(f + 21) == f + 21;
    assert U32(f + 21 + 7) == f + 28;
    assert U32(f + (week - 1) * 7) == f + 7 * (week - 1);
  }

  /** The helper's day in plain arithmetic: in the month, whole weeks after f, and the last one for week 5. */
  lemma {:induction false} NthFromFirstShape(maxDay: int, first: int, week: u32, weekday: int, f: int)
    requires 28 <= maxDay <= 31 && 0 <= first < 7 && 0 <= weekday < 7 && 1 <= week <= 5
    requires f == 1 + (weekday - first + 7) % 7
    ensures var d := NthFromFirst(maxDay, first, week, weekday);
      1 <= d <= maxDay
      && d == f + 7 * WeeksAfterFirst(maxDay, f, week)
      && (week < 5 ==> d == f + 7 * (week - 1))
      && (week == 5 ==> d + 7 > maxDay)
  {
    NthFromFirstWeeks(maxDay, first, week, weekday, f);
  }

  /** The helper's day is the first occurrence plus WeeksAfterFirst whole weeks, within the month. */
  lemma {:induction false} NthWeekdayDay(year: u32, month: u32, week: u32, weekday: u32)
    requires 1 <= month <= 12 && weekday < 7 && 1 <= week <= 5
    ensures var d := NthWeekdayOfMonth(year, month, week, weekday);
      var maxDay := Civil.DaysInMonth(year, month);
      var f := FirstOccurrence(year, month, weekday);
      1 <= d <= maxDay
      && d == f + 7 * WeeksAfterFirst(maxDay, f, week)
      && (week == 5 ==> d + 7 > maxDay)
  {
    var maxDay := Civil.DaysInMonth(year, month);
    var first := FirstWeekday(year, month);
    var f := 1 + (weekday - first + 7) % 7;
    FirstOccurrenceValue(year, month, weekday);
    assert I32(weekday) == weekday;
    assert NthWeekdayOfMonth(year, month, week, weekday) == NthFromFirst(maxDay, first, week, weekday);
    NthFromFirstShape(maxDay, first, week, weekday, f);
  }

  /** The helper's day has the requested weekday. */
  lemma {:induction false} NthWeekdayWeekday(year: u32, month: u32, week: u32, weekday: u32)
    requires 1 <= month <= 12 && weekday < 7 && 1 <= week <= 5
    ensures DayOfWeek(year, month, NthWeekdayOfMonth(year, month, week, weekday)) == weekday
  {
    var f := FirstOccurrence(year, month, weekday);
    var k := WeeksAfterFirst(Civil.DaysInMonth(year, month), f, week);
    NthWeekdayDay(year, month, week, weekday);
    WeeksAfterOccurrence(year, month, weekday, NthWeekdayOfMonth(year, month, week, weekday), k);
  }

  /** A day whole weeks after the first occurrence of a weekday has that weekday. */
  lemma {:induction false} WeeksAfterOccurrence(year: int, month: int, weekday: int, d: int, k: int)
    requires 1 <= month <= 12 && 0 <= weekday < 7
    requires d == FirstOccurrence(year, month, weekday) + 7 * k
    ensures DayOfWeek(year, month, d) == weekday
  {
    WeekdayPlusWeeks(year, month, FirstOccurrence(year, month, weekday), d, k);
  }

  /**
   With a weekday in 0..6, weeks 1 to 4 give
   that weekday's week-th occurrence, and week 5 the last occurrence in the month.
   */
  lemma {:induction false} NthWeekdayIsNth(year: u32, month: u32, week: u32, weekday: u32)
    requires 1 <= month <= 12 && weekday < 7 && 1 <= week <= 5
    ensures var d := NthWeekdayOfMonth(year, month, week, weekday);
      1 <= d <= Civil.DaysInMonth(year, month)
      && DayOfWeek(year, month, d) == weekday
      && (week < 5 ==> d == FirstOccurrence(year, month, weekday) + 7 * (week - 1))
      && (week == 5 ==> d + 7 > Civil.DaysInMonth(year, month))
  {
    NthWeekdayDay(year, month, week, weekday);
    NthWeekdayWeekday(year, month, week, weekday);
  }

  /**
   The RRULE variant of the day arithmetic: a signed week, -1 for the last
   occurrence, any other non-positive week for the first, and 0 for a day past the
   end of the month.
   */
  function RRuleFromFirst(maxDay: int, first: int, week: int, weekday: int): (day: u32)
  {
    var firstOccurrence := 1 + CRem(weekday - first + 7, 7);
    var day :=
      if week == -1 then
        var fourth := U32(firstOccurrence + 21);
        if U32(fourth + 7) <= maxDay then U32(fourth + 7) else fourth
      else if week > 0 then U32(firstOccurrence + (week - 1) * 7)
      else U32(firstOccurrence);
    if day > maxDay then 0 else day
  }

  /**
   GetNthWeekdayOfMonthForRRule: like NthWeekdayOfMonth, but with a signed week
   (-1 = last) and 0 for a day past the end of the month. Every week other than
   -1 and 1..5 falls back to the first occurrence, including -2, -3, ...
   */
  function NthWeekdayForRRule(year: u32, month: u32, week: int, weekday: int): (day: u32)
    requires 1 <= month <= 12
  {
    RRuleFromFirst(Civil.DaysInMonth(year, month), FirstWeekday(year, month), week, weekday)
  }

  /** Whole weeks the RRULE helper adds to the first occurrence f. */
  function RRuleWeeksAfterFirst(maxDay: int, f: int, week: int): int {
    if week == -1 then (if f + 28 <= maxDay then 4 else 3)
    else if week > 0 then week - 1
    else 0
  }

  /** The RRULE helper's day is the first occurrence plus whole weeks, or 0 past the month's end. */
  lemma {:induction false} RRuleFromFirstWeeks(maxDay: int, first: int, week: int, weekday: int, f: int)
    requires 28 <= maxDay <= 31 && 0 <= first < 7 && 0 <= weekday < 7 && -128 <= week < 128
    requires f == 1 + (weekday - first + 7) % 7
    ensures var k := RRuleWeeksAfterFirst(maxDay, f, week);
      RRuleFromFirst(maxDay, first, week, weekday) == if f + 7 * k <= maxDay then f + 7 * k else 0
  {
    assert 1 + CRem(weekday - first + 7, 7) == f;
    assert U32(f + 21) == f + 21;
    assert U32(f + 21 + 7) == f + 28;
    assert U32(f) == f;
    if week > 0 {
      assert U32(f + (week - 1) * 7) == f + 7 * (week - 1);
    }
  }

  /** The shape of the RRULE day in plain arithmetic: which week it lands in, and when it is 0. */
  lemma {:induction false} RRuleShape(maxDay: int, f: int, week: int, d: int)
    requires 28 <= maxDay <= 31 && 1 <= f <= 7
    requires var k := RRuleWeeksAfterFirst(maxDay, f, week);
      d == if f + 7 * k <= maxDay then f + 7 * k else 0
    ensures d == 0 || 1 <= d <= maxDay
    ensures week == -1 ==> d != 0 && d + 7 > maxDay
    ensures week > 0 ==> (d == if f + 7 * (week - 1) <= maxDay then f + 7 * (week - 1) else 0)
    ensures week == 0 || week < -1 ==> d == f
  {
    var k := RRuleWeeksAfterFirst(maxDay, f, week);
    if week == -1 {
      assert k == 3 || k == 4;
      assert f + 7 * 3 <= maxDay;
    }
  }

  /**
   The RRULE helper returns 0 or a day of the month with the requested weekday:
   the last occurrence for week -1, the week-th for week > 0 (0 when the month has
   no such week), and the first occurrence for week 0 and every week below -1.
   The week is a BYDAY entry's `signed char`, so it lies in -128..127.
   */
  lemma {:induction false} NthWeekdayForRRuleSpec(year: u32, month: u32, week: int, weekday: int)
    requires 1 <= month <= 12 && 0 <= weekday < 7 && -128 <= week < 128
    ensures var d := NthWeekdayForRRule(year, month, week, weekday);
      var f := FirstOccurrence(year, month, weekday);
      var maxDay := Civil.DaysInMonth(year, month);
      (d == 0 || (1 <= d <= maxDay && DayOfWeek(year, month, d) == weekday))
      && (week == -1 ==> d != 0 && d + 7 > maxDay)
      && (week > 0 ==> (d == if f + 7 * (week - 1) <= maxDay then f + 7 * (week - 1) else 0))
      && (week == 0 || week < -1 ==> d == f)
  {
    var maxDay := Civil.DaysInMonth(year, month);
    var first := DayOfWeek(year, month, 1);
    var f := FirstOccurrence(year, month, weekday);
    FirstOccurrenceValue(year, month, weekday);
    var d := NthWeekdayForRRule(year, month, week, weekday);
    assert d == RRuleFromFirst(maxDay, first, week, weekday);
    RRuleFromFirstWeeks(maxDay, first, week, weekday, f);
    var k := RRuleWeeksAfterFirst(maxDay, f, week);
    RRuleShape(maxDay, f, week, d);
    if d != 0 {
      WeeksAfterOccurrence(year, month, weekday, d, k);
    }
  }

  /**
   GetNthWeekdayOfMonthForRRule as written: the weekday of the first comes from
   its own unsigned Zeller sum, which wraps in some months before 2020.
   */
  function NthWeekdayForRRuleAsWritten(year: u32, month: u32, week: int, weekday: int): (day: u32)
    requires 1 <= month <= 12
  {
    RRuleFromFirst(Civil.DaysInMonth(year, month), DayOfWeekAsWritten(year, month, 1), week, weekday)
  }

  /** From 2020 to 2099 the RRULE helper as written gives the day the model uses. */
  lemma {:induction false} NthWeekdayForRRuleAsWrittenAgrees(year: u32, month: u32, week: int, weekday: int)
    requires 2020 <= year <= 2099 && 1 <= month <= 12
    ensures NthWeekdayForRRuleAsWritten(year, month, week, weekday) == NthWeekdayForRRule(year, month, week, weekday)
  {
    assert Civil.ValidDate(Civil.Date(year, month, 1));
    NoWrap2020To2099(year, month, 1);
  }

  /**
   `BYDAY=2SU` in March 2019: the second Sunday is the 10th, but the RRULE helper
   as written takes 1 March for a Tuesday and answers the 13th, a Wednesday.
   */
  lemma {:induction false} SecondSundayForRRule2019()
    ensures NthWeekdayForRRule(2019, 3, 2, 0) == 10
    ensures NthWeekdayForRRuleAsWritten(2019, 3, 2, 0) == 13
    ensures DayOfWeek(2019, 3, 10) == 0 && DayOfWeek(2019, 3, 13) == 3
  {
    AsWrittenWrapsOn2019March1();
    assert Civil.DaysInMonth(2019, 3) == 31;
    assert FirstWeekday(2019, 3) == 5;
    WeekdayInMonth(2019, 3, 10);
    WeekdayInMonth(2019, 3, 13);
  }

  // ---------------------------------------------------------------------------
  // Summer time (ICS parser)
  // ---------------------------------------------------------------------------

  /** IsInUsDst: from the second Sunday of March up to (not including) the first Sunday of November. */
  predicate IsInUsDst(year: u32, month: u32, day: u32)
  {
    if month < 3 || month > 11 then false
    else if month > 3 && month < 11 then true
    else if month == 3 then day >= NthWeekdayOfMonth(year, 3, 2, 0)
    else day < NthWeekdayOfMonth(year, 11, 1, 0)
  }

  /** IsInEuDst: from the last Sunday of March up to (not including) the last Sunday of October. */
  predicate IsInEuDst(year: u32, month: u32, day: u32)
  {
    if month < 3 || month > 10 then false
    else if month > 3 && month < 10 then true
    else if month == 3 then day >= NthWeekdayOfMonth(year, 3, 5, 0)
    else day < NthWeekdayOfMonth(year, 10, 5, 0)
  }

  /** A date of the year, as a day number. */
  function DayNumber(year: int, month: int, day: int): int
    requires 1 <= month <= 12
  {
    Civil.DaysFromCivil(Civil.Date(year, month, day))
  }

  /**
   A window from (sm, s) up to (not including) (em, e) of one year, tested month by
   month the way the summer-time predicates do, is a range of day numbers.
   */
  lemma {:induction false} WindowOrder(year: int, month: int, day: int, sm: int, s: int, em: int, e: int)
    requires sm < em
    requires Civil.ValidDate(Civil.Date(year, month, day))
    requires Civil.ValidDate(Civil.Date(year, sm, s)) && Civil.ValidDate(Civil.Date(year, em, e))
    ensures (if month < sm || month > em then false
             else if month > sm && month < em then true
             else if month == sm then day >= s
             else day < e)
      <==> DayNumber(year, sm, s) <= DayNumber(year, month, day) < DayNumber(year, em, e)
  {
    var d := Civil.Date(year, month, day);
    Civil.SameYearOrder(d, Civil.Date(year, sm, s));
    Civil.SameYearOrder(d, Civil.Date(year, em, e));
  }

  /**
   US summer time is exactly the day numbers from the second Sunday of March (a
   Sunday on day 8..14) up to the first Sunday of November (day 1..7).
   */
  lemma {:induction false} UsDstWindow(year: u32, month: u32, day: u32)
    requires Civil.ValidDate(Civil.Date(year, month, day))
    ensures var s := NthWeekdayOfMonth(year, 3, 2, 0);
      var e := NthWeekdayOfMonth(year, 11, 1, 0);
      8 <= s <= 14 && DayOfWeek(year, 3, s) == 0
      && 1 <= e <= 7 && DayOfWeek(year, 11, e) == 0
      && (IsInUsDst(year, month, day)
          <==> DayNumber(year, 3, s) <= DayNumber(year, month, day) < DayNumber(year, 11, e))
  {
    var s := NthWeekdayOfMonth(year, 3, 2, 0);
    var e := NthWeekdayOfMonth(year, 11, 1, 0);
    NthWeekdayIsNth(year, 3, 2, 0);
    NthWeekdayIsNth(year, 11, 1, 0);
    WindowOrder(year, month, day, 3, s, 11, e);
  }

  /** In a 31-day month the last Sunday falls on day 25..31. */
  lemma {:induction false} LastSundayOf31(year: u32, month: u32)
    requires month == 3 || month == 10
    ensures var s := NthWeekdayOfMonth(year, month, 5, 0);
      25 <= s <= 31 && DayOfWeek(year, month, s) == 0
  {
    var s := NthWeekdayOfMonth(year, month, 5, 0);
    NthWeekdayIsNth(year, month, 5, 0);
    Civil.LongMonth(year, month);
  }

  /**
   EU summer time is exactly the day numbers from the last Sunday of March (day
   25..31) up to the last Sunday of October (day 25..31).
   */
  lemma {:induction false} EuDstWindow(year: u32, month: u32, day: u32)
    requires Civil.ValidDate(Civil.Date(year, month, day))
    ensures var s := NthWeekdayOfMonth(year, 3, 5, 0);
      var e := NthWeekdayOfMonth(year, 10, 5, 0);
      25 <= s <= 31 && DayOfWeek(year, 3, s) == 0
      && 25 <= e <= 31 && DayOfWeek(year, 10, e) == 0
      && (IsInEuDst(year, month, day)
          <==> DayNumber(year, 3, s) <= DayNumber(year, month, day) < DayNumber(year, 10, e))
  {
    var s := NthWeekdayOfMonth(year, 3, 5, 0);
    var e := NthWeekdayOfMonth(year, 10, 5, 0);
    LastSundayOf31(year, 3);
    LastSundayOf31(year, 10);
    WindowOrder(year, month, day, 3, s, 10, e);
  }
}
