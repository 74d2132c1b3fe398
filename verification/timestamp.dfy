/**
 The firmware's unsigned day and timestamp arithmetic: DateToTimestampHelper,
 DateToTimestamp and TimestampToDate of the ICS parser (and the inline copies in
 ParseDateTime), proved against the Civil calendar.

 Every C copy accumulates its day count in an `unsigned`, so each addition wraps
 modulo 2^32; the model keeps each step's wrap (Machine.U32) exactly where the
 code has it.
 */
module Timestamp {
  import opened Machine
  import Civil

  const SECONDS_PER_DAY: int := 86400

  // ---------------------------------------------------------------------------
  // The two accumulation loops. The C code adds into an `unsigned`, wrapping at
  // every step; since reduction modulo 2^32 commutes with addition (U32Add), the
  // model adds exactly and reduces once, where the count is used.
  // ---------------------------------------------------------------------------

  /**
   The year loop: from year y up to (not including) `year`, add 365 or 366 to
   `days`. It adds nothing when `year` <= y, so years before 1970 count 0.
   */
  function YearLoop(y: int, year: int, days: int): int
    decreases year - y
  {
    if y < year then YearLoop(y + 1, year, days + Civil.DaysInYear(y)) else days
  }

  /** Days in the first k months of a leap or common year. */
  function MonthsPrefix(leap: bool, k: int): int
    requires 0 <= k <= 12
  {
    if k == 12 then Civil.YearLength(leap) else Civil.MonthStart(leap, k + 1)
  }

  /**
   The month loop: for the 0-based index m while m < bound, add the table length of
   month m and one more for February of a leap year. The table has twelve entries,
   so the loop stays inside it only for bound <= 12.
   */
  function MonthLoop(leap: bool, m: nat, bound: int, days: int): int
    requires bound <= 12
    decreases bound - m
  {
    if m < bound then
      MonthLoop(leap, m + 1, bound, days + Civil.CommonMonthLength(m + 1) + (if m == 1 && leap then 1 else 0))
    else days
  }

  /**
   The unsigned day number the C copies build for (year, month, day): whole years
   from 1970, whole months before `month` (the loop bound is month - 1, computed by
   the caller in `int` or in `unsigned`), then day - 1.
   */
  function DayCount(year: int, bound: int, day: int): u32
    requires bound <= 12
  {
    U32(MonthLoop(Civil.IsLeap(year), 0, bound, YearLoop(1970, year, 0)) + (day - 1))
  }

  /** DateToTimestampHelper: `int` arguments, so the month bound month - 1 is an `int`. */
  function DateToTimestampHelper(year: int, month: int, day: int): (r: u32)
    requires month <= 13
  {
    U32(DayCount(year, month - 1, day) * SECONDS_PER_DAY)
  }

  /** DateToTimestamp: `unsigned` arguments, so month - 1 wraps at month 0. */
  function DateToTimestamp(year: u32, month: u32, day: u32, hour: u32, minute: u32, second: u32): (r: u32)
    requires U32(month - 1) <= 12
  {
    U32(DayCount(year, U32(month - 1), day) * SECONDS_PER_DAY + hour * 3600 + minute * 60 + second)
  }

  // ---------------------------------------------------------------------------
  // The loops against the calendar
  // ---------------------------------------------------------------------------

  /** The year loop adds exactly the days of the years it walks over. */
  lemma {:induction false} YearLoopSum(y: int, year: int, days: int)
    requires y <= year
    ensures YearLoop(y, year, days) == days + Civil.DaysBeforeYear(year) - Civil.DaysBeforeYear(y)
    decreases year - y
  {
    if y < year {
      YearLoopSum(y + 1, year, days + Civil.DaysInYear(y));
      Civil.DaysBeforeYearStep(y);
    }
  }

  /** Month m + 1 (1-based) as the loop adds it is the calendar's month length. */
  lemma {:induction false} MonthsPrefixStep(leap: bool, m: nat)
    requires m < 12
    ensures MonthsPrefix(leap, m + 1)
         == MonthsPrefix(leap, m) + Civil.CommonMonthLength(m + 1) + (if m == 1 && leap then 1 else 0)
  {
    if m + 1 < 12 {
      Civil.MonthStartStep(leap, m + 1);
    } else {
      Civil.LastMonthEndsYear(leap);
    }
  }

  /** The month loop adds exactly the days of the months it walks over. */
  lemma {:induction false} MonthLoopSum(leap: bool, m: nat, bound: int, days: int)
    requires m <= bound <= 12
    ensures MonthLoop(leap, m, bound, days) == days + MonthsPrefix(leap, bound) - MonthsPrefix(leap, m)
    decreases bound - m
  {
    if m < bound {
      MonthLoopSum(leap, m + 1, bound, days + Civil.CommonMonthLength(m + 1) + (if m == 1 && leap then 1 else 0));
      MonthsPrefixStep(leap, m);
    }
  }

  /**
   The day count in closed form, for every argument the code accepts: years before
   1970 count nothing, a month bound below 1 counts no month, bound 12 (month 13)
   counts the whole year, and the day is added as day - 1 even when it is 0.
   */
  lemma {:induction false} DayCountClosed(year: int, bound: int, day: int)
    requires bound <= 12
    ensures DayCount(year, bound, day)
         == U32((if year > 1970 then Civil.DaysBeforeYear(year) else 0)
                + (if bound <= 0 then 0 else MonthsPrefix(Civil.IsLeap(year), bound)) + day - 1)
  {
    if year > 1970 {
      YearLoopSum(1970, year, 0);
      assert Civil.DaysBeforeYear(1970) == 0;
    }
    if bound > 0 {
      MonthLoopSum(Civil.IsLeap(year), 0, bound, YearLoop(1970, year, 0));
      assert MonthsPrefix(Civil.IsLeap(year), 0) == 0;
    }
  }

  /** For a valid date from 1970 on, the day count is the calendar's day number, modulo 2^32. */
  lemma {:induction false} DayCountIsCivil(d: Civil.Date)
    requires Civil.ValidDate(d) && d.year >= 1970
    ensures DayCount(d.year, d.month - 1, d.day) == U32(Civil.DaysFromCivil(d))
  {
    DayCountClosed(d.year, d.month - 1, d.day);
    assert Civil.DaysBeforeYear(1970) == 0;
    assert d.month > 1 ==> MonthsPrefix(Civil.IsLeap(d.year), d.month - 1) == Civil.DaysBeforeMonth(d.year, d.month);
    assert d.month == 1 ==> Civil.DaysBeforeMonth(d.year, d.month) == 0;
  }

  /** DateToTimestampHelper is the calendar's day number times 86400, modulo 2^32. */
  lemma {:induction false} HelperIsCivil(d: Civil.Date)
    requires Civil.ValidDate(d) && d.year >= 1970
    ensures DateToTimestampHelper(d.year, d.month, d.day) == U32(Civil.DaysFromCivil(d) * SECONDS_PER_DAY)
  {
    DayCountIsCivil(d);
    U32Mul(Civil.DaysFromCivil(d), SECONDS_PER_DAY);
  }

  /** DateToTimestamp adds the time of day to the same day count. */
  lemma {:induction false} DateToTimestampIsCivil(d: Civil.Date, hour: u32, minute: u32, second: u32)
    requires Civil.ValidDate(d) && 1970 <= d.year < TWO32
    ensures DateToTimestamp(d.year, d.month, d.day, hour, minute, second)
         == U32(Civil.DaysFromCivil(d) * SECONDS_PER_DAY + hour * 3600 + minute * 60 + second)
  {
    DayCountIsCivil(d);
    var rest := hour * 3600 + minute * 60 + second;
    U32Mul(Civil.DaysFromCivil(d), SECONDS_PER_DAY);
    U32Add(Civil.DaysFromCivil(d) * SECONDS_PER_DAY, rest);
    U32Add(U32(Civil.DaysFromCivil(d)) * SECONDS_PER_DAY, rest);
  }

  /** The `int` helper and the `unsigned` function agree at midnight on every month 1..13. */
  lemma {:induction false} HelperIsDateToTimestamp(year: u32, month: u32, day: u32)
    requires 1 <= month <= 13
    ensures DateToTimestampHelper(year, month, day) == DateToTimestamp(year, month, day, 0, 0, 0)
  {
    assert U32(month - 1) == month - 1;
  }

  /** Reduction modulo 2^32 distributes over multiplication by a constant. */
  lemma {:induction false} U32Mul(a: int, c: int)
    ensures U32(U32(a) * c) == U32(a * c)
  {
    var q := a / TWO32;
    assert a == q * TWO32 + U32(a);
    assert U32(a) * c == a * c + (-q * c) * TWO32;
    ModShift(a * c, -q * c);
  }

  // ---------------------------------------------------------------------------
  // TimestampToDate
  // ---------------------------------------------------------------------------

  /**
   The month loop of TimestampToDate: from month m on, stop at the first month at
   least as long as the remaining days, or once December is passed.
   */
  function MonthWalk(leap: bool, days: nat, m: int): (int, nat)
    requires 1 <= m <= 13
    decreases 13 - m
  {
    if m > 12 then (m, days)
    else if days < Civil.MonthLength(leap, m) then (m, days)
    else MonthWalk(leap, days - Civil.MonthLength(leap, m), m + 1)
  }

  /**
   TimestampToDate: whole days, then the year walk from 1970 (the same walk as
   Civil.SplitYears), then the month walk; the day is the remainder plus one.
   */
  function TimestampToDate(timestamp: u32): (d: Civil.Date)
  {
    var (y, rem) := Civil.SplitYears(timestamp / SECONDS_PER_DAY, 1970);
    var (m, r) := MonthWalk(Civil.IsLeap(y), rem, 1);
    Civil.Date(y, m, r + 1)
  }

  /** Inside a year the month walk never runs past December: it is Civil's month split. */
  lemma {:induction false} MonthWalkIsSplit(leap: bool, days: nat, m: int)
    requires 1 <= m <= 12 && Civil.MonthStart(leap, m) + days < Civil.YearLength(leap)
    ensures MonthWalk(leap, days, m) == Civil.SplitMonths(leap, days, m)
    decreases 13 - m
  {
    if days >= Civil.MonthLength(leap, m) {
      if m == 12 {
        Civil.LastMonthEndsYear(leap);
      } else {
        Civil.SplitMonthsStep(leap, m, days);
        MonthWalkIsSplit(leap, days - Civil.MonthLength(leap, m), m + 1);
      }
    }
  }

  /** TimestampToDate yields the calendar date of the timestamp's whole days. */
  lemma {:induction false} TimestampToDateIsCivil(timestamp: u32)
    ensures TimestampToDate(timestamp) == Civil.CivilFromDays(timestamp / SECONDS_PER_DAY)
  {
    var (y, rem) := Civil.SplitYears(timestamp / SECONDS_PER_DAY, 1970);
    assert Civil.MonthStart(Civil.IsLeap(y), 1) == 0;
    MonthWalkIsSplit(Civil.IsLeap(y), rem, 1);
  }

  /**
   TimestampToDate inverts DateToTimestamp at midnight, for every valid date from
   1970 on whose timestamp fits in 32 bits.
   */
  lemma {:induction false} DateRoundTrip(d: Civil.Date)
    requires Civil.ValidDate(d) && d.year >= 1970
    requires Civil.DaysFromCivil(d) * SECONDS_PER_DAY < TWO32
    ensures d.year < TWO32
    ensures TimestampToDate(DateToTimestamp(d.year, d.month, d.day, 0, 0, 0)) == d
  {
    Civil.CivilRoundTrip(d);
    Civil.YearSplitOf(d);
    Civil.DaysBeforeYearMonotone(1970, d.year);
    assert Civil.DaysBeforeYear(1970) == 0;
    DateToTimestampIsCivil(d, 0, 0, 0);
    var n := Civil.DaysFromCivil(d);
    assert DateToTimestamp(d.year, d.month, d.day, 0, 0, 0) == n * SECONDS_PER_DAY;
    assert (n * SECONDS_PER_DAY) / SECONDS_PER_DAY == n;
    TimestampToDateIsCivil(n * SECONDS_PER_DAY);
  }

  /** A second of the day splits into hours, minutes and seconds and back. */
  lemma {:induction false} SecondOfDaySplit(sod: int)
    requires 0 <= sod < SECONDS_PER_DAY
    ensures 0 <= sod / 3600 < 24 && 0 <= sod % 3600 / 60 < 60
    ensures sod / 3600 * 3600 + sod % 3600 / 60 * 60 + sod % 60 == sod
  {
  }

  /** TimestampToDate gives a valid date between 1970 and the last year a 32-bit count reaches. */
  lemma {:induction false} TimestampToDateValid(timestamp: u32)
    ensures var d := TimestampToDate(timestamp);
      Civil.ValidDate(d) && 1970 <= d.year < TWO32
  {
    TimestampToDateIsCivil(timestamp);
    var d := Civil.CivilFromDays(timestamp / SECONDS_PER_DAY);
    Civil.DaysBeforeYearMonotone(1970, d.year);
    assert Civil.DaysBeforeYear(1970) == 0;
    Civil.DayOfYearBounds(d);
  }

  /**
   DateToTimestamp inverts TimestampToDate: the date of any timestamp, with the
   time of day split into hours, minutes and seconds, gives the timestamp back.
   */
  lemma {:induction false} TimestampRoundTrip(timestamp: u32)
    ensures var d := TimestampToDate(timestamp);
      var sod := timestamp % SECONDS_PER_DAY;
      Civil.ValidDate(d) && 1970 <= d.year < TWO32
      && DateToTimestamp(d.year, d.month, d.day, sod / 3600, sod % 3600 / 60, sod % 60) == timestamp
  {
    TimestampToDateIsCivil(timestamp);
    var n := timestamp / SECONDS_PER_DAY;
    var d := Civil.CivilFromDays(n);
    assert d.year < TWO32 by {
      Civil.DaysBeforeYearMonotone(1970, d.year);
      assert Civil.DaysBeforeYear(1970) == 0;
      Civil.DayOfYearBounds(d);
    }
    var sod := timestamp % SECONDS_PER_DAY;
    var h, mi, se := sod / 3600, sod % 3600 / 60, sod % 60;
    SecondOfDaySplit(sod);
    DateToTimestampIsCivil(d, h, mi, se);
    assert n * SECONDS_PER_DAY + sod == timestamp;
    assert n * SECONDS_PER_DAY + h * 3600 + mi * 60 + se == timestamp;
  }
}
