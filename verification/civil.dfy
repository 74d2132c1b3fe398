/**
 The proleptic Gregorian calendar, counted in days from 1 January 1970.

 The firmware carries several hand-written copies of this arithmetic (year and
 month walks, day tables, Zeller's congruence). This module is the single
 reference they are all proved against.
 */
module Civil {

  datatype Date = Date(year: int, month: int, day: int)

  predicate IsLeap(y: int) {
    (y % 4 == 0 && y % 100 != 0) || y % 400 == 0
  }

  function YearLength(leap: bool): int {
    if leap then 366 else 365
  }

  function DaysInYear(y: int): (r: int)
    ensures r == 365 || r == 366
    ensures r == 366 <==> IsLeap(y)
  {
    YearLength(IsLeap(y))
  }

  /** Month lengths of a common year, January first (the firmware's `daysInMonth` table). */
  function CommonMonthLength(m: int): int
    requires 1 <= m <= 12
  {
    [31, 28, 31, 30, 31, 30, 31, 31, 30, 31, 30, 31][m - 1]
  }

  /** Length of month m in a leap year (leap) or a common year (!leap). */
  function MonthLength(leap: bool, m: int): (r: int)
    requires 1 <= m <= 12
    ensures 28 <= r <= 31
  {
    if m == 2 && leap then 29 else CommonMonthLength(m)
  }

  function DaysInMonth(y: int, m: int): (r: int)
    requires 1 <= m <= 12
    ensures 28 <= r <= 31
    ensures r == 29 <==> m == 2 && IsLeap(y)
  {
    MonthLength(IsLeap(y), m)
  }

  /** March and October have 31 days in every year. */
  lemma {:induction false} LongMonth(y: int, m: int)
    requires m == 3 || m == 10
    ensures DaysInMonth(y, m) == 31
  {
    assert CommonMonthLength(m) == 31;
  }

  /** Days of a common year before the first of month m (the `daysBeforeMonth` table). */
  function CommonDaysBefore(m: int): int
    requires 1 <= m <= 12
  {
    [0, 31, 59, 90, 120, 151, 181, 212, 243, 273, 304, 334][m - 1]
  }

  /** Days of a leap or common year before the first of month m. */
  function MonthStart(leap: bool, m: int): int
    requires 1 <= m <= 12
  {
    CommonDaysBefore(m) + (if m > 2 && leap then 1 else 0)
  }

  function DaysBeforeMonth(y: int, m: int): int
    requires 1 <= m <= 12
  {
    MonthStart(IsLeap(y), m)
  }

  /** Number of leap years in 1..y-1 (floor division keeps it right for every y). */
  function LeapsBefore(y: int): int {
    (y - 1) / 4 - (y - 1) / 100 + (y - 1) / 400
  }

  /** Days from 1970-01-01 to the first of January of year y (negative before 1970). */
  function DaysBeforeYear(y: int): int
    decreases if y >= 1970 then y - 1970 else 1970 - y
  {
    if y == 1970 then 0
    else if y > 1970 then DaysBeforeYear(y - 1) + DaysInYear(y - 1)
    else DaysBeforeYear(y + 1) - DaysInYear(y)
  }

  predicate ValidDate(d: Date) {
    1 <= d.month <= 12 && 1 <= d.day <= DaysInMonth(d.year, d.month)
  }

  /** Day number of a date: 0 for 1970-01-01, negative before it. */
  function DaysFromCivil(d: Date): int
    requires 1 <= d.month <= 12
  {
    DaysBeforeYear(d.year) + DaysBeforeMonth(d.year, d.month) + d.day - 1
  }

  /** Day of the week of a day number, Sunday = 0 (1970-01-01 was a Thursday). */
  function Weekday(n: int): (r: int)
    ensures 0 <= r < 7
  {
    (n + 4) % 7
  }

  lemma {:induction false} DaysBeforeYearStep(y: int)
    ensures DaysBeforeYear(y + 1) == DaysBeforeYear(y) + DaysInYear(y)
  {
  }

  lemma {:induction false} LeapsBeforeStep(y: int)
    ensures LeapsBefore(y + 1) == LeapsBefore(y) + (if IsLeap(y) then 1 else 0)
  {
    var a, b, c := y / 4, y / 100, y / 400;
    var a', b', c' := (y - 1) / 4, (y - 1) / 100, (y - 1) / 400;
    assert a - a' == (if y % 4 == 0 then 1 else 0);
    assert b - b' == (if y % 100 == 0 then 1 else 0);
    assert c - c' == (if y % 400 == 0 then 1 else 0);
  }

  /** The year walk agrees with the closed form that counts leap years by division. */
  lemma {:induction false} DaysBeforeYearClosed(y: int)
    ensures DaysBeforeYear(y) == 365 * (y - 1970) + LeapsBefore(y) - 477
    decreases if y >= 1970 then y - 1970 else 1970 - y
  {
    if y > 1970 {
      DaysBeforeYearClosed(y - 1);
      LeapsBeforeStep(y - 1);
    } else if y < 1970 {
      DaysBeforeYearClosed(y + 1);
      LeapsBeforeStep(y);
    }
  }

  lemma {:induction false} MonthStartStep(leap: bool, m: int)
    requires 1 <= m < 12
    ensures MonthStart(leap, m + 1) == MonthStart(leap, m) + MonthLength(leap, m)
  {
  }

  lemma {:induction false} LastMonthEndsYear(leap: bool)
    ensures MonthStart(leap, 12) + MonthLength(leap, 12) == YearLength(leap)
  {
  }

  lemma {:induction false} DaysBeforeYearMonotone(y: int, y': int)
    requires y <= y'
    ensures DaysBeforeYear(y) + 365 * (y' - y) <= DaysBeforeYear(y')
    decreases y' - y
  {
    if y < y' {
      DaysBeforeYearMonotone(y, y' - 1);
      DaysBeforeYearStep(y' - 1);
    }
  }

  /** A later month of the same year starts after the whole of an earlier one. */
  lemma {:induction false} MonthStartGap(leap: bool, m: int, m': int)
    requires 1 <= m < m' <= 12
    ensures MonthStart(leap, m) + MonthLength(leap, m) <= MonthStart(leap, m')
    decreases m' - m
  {
    MonthStartStep(leap, m);
    if m + 1 < m' {
      MonthStartGap(leap, m + 1, m');
    }
  }

  /** The first of the next month comes a whole month after the first of this one. */
  lemma {:induction false} NextMonthStart(y: int, m: int)
    requires 1 <= m <= 12
    ensures m < 12 ==> DaysFromCivil(Date(y, m + 1, 1)) == DaysFromCivil(Date(y, m, 1)) + DaysInMonth(y, m)
    ensures m == 12 ==> DaysFromCivil(Date(y + 1, 1, 1)) == DaysFromCivil(Date(y, 12, 1)) + DaysInMonth(y, 12)
  {
    if m < 12 {
      MonthStartStep(IsLeap(y), m);
    } else {
      LastMonthEndsYear(IsLeap(y));
      DaysBeforeYearStep(y);
    }
  }

  /** Within one year the day number orders dates by month, then by day. */
  lemma {:induction false} SameYearOrder(a: Date, b: Date)
    requires ValidDate(a) && ValidDate(b) && a.year == b.year
    ensures DaysFromCivil(a) < DaysFromCivil(b) <==> a.month < b.month || (a.month == b.month && a.day < b.day)
  {
    if a.month < b.month {
      MonthStartGap(IsLeap(a.year), a.month, b.month);
    } else if b.month < a.month {
      MonthStartGap(IsLeap(a.year), b.month, a.month);
    }
  }

  /** Every valid date falls inside its own year. */
  lemma {:induction false} DayOfYearBounds(d: Date)
    requires ValidDate(d)
    ensures 0 <= DaysFromCivil(d) - DaysBeforeYear(d.year) < DaysInYear(d.year)
  {
  }

  // ---------------------------------------------------------------------------
  // Decomposition of a day count, the way the firmware walks it: subtract whole
  // years from 1970 on, then whole months from January on.
  // ---------------------------------------------------------------------------

  /** Strip whole years starting at year y; returns the year and the day within it. */
  function SplitYears(days: nat, y: int): (r: (int, nat))
    ensures r.0 >= y && r.1 < DaysInYear(r.0)
    ensures DaysBeforeYear(r.0) + r.1 == DaysBeforeYear(y) + days
    decreases days
  {
    DaysBeforeYearStep(y);
    if days < DaysInYear(y) then (y, days) else SplitYears(days - DaysInYear(y), y + 1)
  }

  /** Strip whole months of a leap or common year starting at month m; returns the month and the day within it. */
  function SplitMonths(leap: bool, days: nat, m: int): (r: (int, nat))
    requires 1 <= m <= 12
    requires MonthStart(leap, m) + days < YearLength(leap)
    ensures m <= r.0 <= 12 && r.1 < MonthLength(leap, r.0)
    ensures MonthStart(leap, r.0) + r.1 == MonthStart(leap, m) + days
    decreases 12 - m
  {
    if days < MonthLength(leap, m) then (m, days)
    else
      if m == 12 then LastMonthEndsYear(leap); assert false; (m, days)
      else MonthStartStep(leap, m); SplitMonths(leap, days - MonthLength(leap, m), m + 1)
  }

  /** The date of a non-negative day number. */
  function CivilFromDays(n: nat): (d: Date)
    ensures ValidDate(d) && d.year >= 1970
    ensures DaysFromCivil(d) == n
  {
    var (y, rem) := SplitYears(n, 1970);
    var (m, r) := SplitMonths(IsLeap(y), rem, 1);
    Date(y, m, r + 1)
  }

  lemma {:induction false} SplitYearsOf(y0: int, y: int, r: nat)
    requires y0 <= y && r < DaysInYear(y)
    ensures DaysBeforeYear(y) - DaysBeforeYear(y0) + r >= 0
    ensures SplitYears(DaysBeforeYear(y) - DaysBeforeYear(y0) + r, y0) == (y, r)
    decreases y - y0
  {
    DaysBeforeYearStep(y0);
    if y0 < y {
      DaysBeforeYearMonotone(y0 + 1, y);
      SplitYearsOf(y0 + 1, y, r);
    }
  }

  lemma {:induction false} SplitMonthsOf(leap: bool, m0: int, m: int, r: nat)
    requires 1 <= m0 <= m <= 12 && r < MonthLength(leap, m)
    ensures MonthStart(leap, m) - MonthStart(leap, m0) + r >= 0
    ensures MonthStart(leap, m0) + (MonthStart(leap, m) - MonthStart(leap, m0) + r) < YearLength(leap)
    ensures SplitMonths(leap, MonthStart(leap, m) - MonthStart(leap, m0) + r, m0) == (m, r)
    decreases m - m0
  {
    LastMonthEndsYear(leap);
    if m0 < m {
      MonthStartStep(leap, m0);
      SplitMonthsOf(leap, m0 + 1, m, r);
      SplitMonthsStep(leap, m0, MonthStart(leap, m) - MonthStart(leap, m0) + r);
    }
  }

  /** One step of the month walk: a count past the end of month m0 moves on to month m0 + 1. */
  lemma {:induction false} SplitMonthsStep(leap: bool, m0: int, x: nat)
    requires 1 <= m0 < 12 && MonthStart(leap, m0) + x < YearLength(leap)
    requires x >= MonthLength(leap, m0)
    ensures MonthStart(leap, m0 + 1) + (x - MonthLength(leap, m0)) < YearLength(leap)
    ensures SplitMonths(leap, x, m0) == SplitMonths(leap, x - MonthLength(leap, m0), m0 + 1)
  {
    MonthStartStep(leap, m0);
  }

  /** The year walk of a date's day number stops at the date's own year. */
  lemma {:induction false} YearSplitOf(d: Date)
    requires ValidDate(d) && d.year >= 1970
    ensures DaysFromCivil(d) >= 0
    ensures DaysBeforeMonth(d.year, d.month) + d.day - 1 >= 0
    ensures SplitYears(DaysFromCivil(d), 1970) == (d.year, DaysBeforeMonth(d.year, d.month) + d.day - 1)
  {
    DayOfYearBounds(d);
    DaysBeforeYearMonotone(1970, d.year);
    assert DaysBeforeYear(1970) == 0;
    SplitYearsOf(1970, d.year, DaysBeforeMonth(d.year, d.month) + d.day - 1);
  }

  /** The month walk of a date's day within its year stops at the date's own month. */
  lemma {:induction false} MonthSplitOf(d: Date)
    requires ValidDate(d)
    ensures DaysBeforeMonth(d.year, d.month) + d.day - 1 >= 0
    ensures MonthStart(IsLeap(d.year), 1) + (DaysBeforeMonth(d.year, d.month) + d.day - 1) < DaysInYear(d.year)
    ensures SplitMonths(IsLeap(d.year), DaysBeforeMonth(d.year, d.month) + d.day - 1, 1) == (d.month, d.day - 1)
  {
    var leap := IsLeap(d.year);
    assert MonthStart(leap, 1) == 0;
    assert DaysBeforeMonth(d.year, d.month) == MonthStart(leap, d.month);
    assert DaysInMonth(d.year, d.month) == MonthLength(leap, d.month);
    assert DaysInYear(d.year) == YearLength(leap);
    SplitMonthsOf(leap, 1, d.month, d.day - 1);
  }

  /** The walk from 1970 recovers every valid date on or after 1970-01-01. */
  lemma {:induction false} CivilRoundTrip(d: Date)
    requires ValidDate(d) && d.year >= 1970
    ensures DaysFromCivil(d) >= 0
    ensures CivilFromDays(DaysFromCivil(d)) == d
  {
    YearSplitOf(d);
    MonthSplitOf(d);
  }

  /** DaysFromCivil is injective on valid dates from 1970 on. */
  lemma {:induction false} DaysFromCivilInjective(a: Date, b: Date)
    requires ValidDate(a) && a.year >= 1970 && ValidDate(b) && b.year >= 1970
    requires DaysFromCivil(a) == DaysFromCivil(b)
    ensures a == b
  {
    CivilRoundTrip(a);
    CivilRoundTrip(b);
  }

  // ---------------------------------------------------------------------------
  // Zeller's congruence
  // ---------------------------------------------------------------------------

  /**
   The integer sum inside Zeller's congruence for day q of month m of year y,
   with January and February counted as months 13 and 14 of the previous year.
   */
  function ZellerSum(y: int, m: int, q: int): int
    requires 1 <= m <= 12
  {
    var mm := if m < 3 then m + 12 else m;
    var yy := if m < 3 then y - 1 else y;
    var k := yy % 100;
    var j := yy / 100;
    q + (13 * (mm + 1)) / 5 + k + k / 4 + j / 4 - 2 * j
  }

  /** Zeller's h as the formula intends it (0 = Saturday), with a true modulo. */
  function ZellerH(y: int, m: int, q: int): int
    requires 1 <= m <= 12
  {
    ZellerSum(y, m, q) % 7
  }

  lemma {:induction false} SameMod7(a: int, b: int, t: int)
    requires a == b + 7 * t
    ensures a % 7 == b % 7
  {
  }

  /** The year terms of Zeller's sum differ from 365*yy + leap days by a multiple of 7. */
  lemma {:induction false} YearPartMod7(yy: int)
    ensures 365 * yy + yy / 4 - yy / 100 + yy / 400
         == (yy % 100 + (yy % 100) / 4 + (yy / 100) / 4 - 2 * (yy / 100))
            + 7 * (5218 * (yy / 100) + 52 * (yy % 100))
  {
    var j, k := yy / 100, yy % 100;
    assert yy == 100 * j + k;
    assert yy / 4 == 25 * j + k / 4;
    assert (yy / 100) / 4 == yy / 400;
  }

  /** The month term of Zeller's sum against the cumulative month table. */
  lemma {:induction false} MonthPartMod7(m: int)
    requires 1 <= m <= 12
    ensures var mm := if m < 3 then m + 12 else m;
            (CommonDaysBefore(m) - (13 * (mm + 1)) / 5 + (if m < 3 then 1 else 0)) % 7 == 0
  {
  }

  /** Days from 1970 restated on the March-based year yy that Zeller's congruence uses. */
  lemma {:induction false} DaysFromCivilMarchBased(d: Date)
    requires 1 <= d.month <= 12
    ensures var yy := if d.month < 3 then d.year - 1 else d.year;
            DaysFromCivil(d)
              == (365 * yy + yy / 4 - yy / 100 + yy / 400) + CommonDaysBefore(d.month) + d.day - 1
                 - (if d.month < 3 then 719162 else 719527)
  {
    var y := d.year;
    if d.month < 3 {
      DaysBeforeYearClosed(y);
    } else {
      DaysBeforeYearClosed(y + 1);
      DaysBeforeYearStep(y);
    }
  }

  /** The modular bookkeeping of the Zeller proof, over plain integers. */
  lemma {:induction false} ZellerCombine(q: int, M: int, YP: int, tY: int, cdb: int, tM: int, late: bool, D: int)
    requires cdb == M - (if late then 0 else 1) + 7 * tM
    requires D == YP + 7 * tY + cdb + q - 1 - (if late then 719527 else 719162)
    ensures ((q + M + YP) % 7 + 6) % 7 == (D + 4) % 7
  {
    var t := if late then 102790 - tY - tM else 102738 - tY - tM;
    SameMod7(q + M + YP + 6, D + 4, t);
  }

  /** Zeller's congruence agrees with the day count: (h + 6) mod 7 is the Sunday-based weekday. */
  lemma {:induction false} ZellerIsWeekday(d: Date)
    requires 1 <= d.month <= 12
    ensures (ZellerH(d.year, d.month, d.day) + 6) % 7 == Weekday(DaysFromCivil(d))
  {
    var y, m, q := d.year, d.month, d.day;
    var mm := if m < 3 then m + 12 else m;
    var yy := if m < 3 then y - 1 else y;
    var M := (13 * (mm + 1)) / 5;
    var YP := yy % 100 + (yy % 100) / 4 + (yy / 100) / 4 - 2 * (yy / 100);
    YearPartMod7(yy);
    var tY := 5218 * (yy / 100) + 52 * (yy % 100);
    MonthPartMod7(m);
    var c := if m < 3 then 1 else 0;
    var tM := (CommonDaysBefore(m) - M + c) / 7;
    DaysFromCivilMarchBased(d);
    ZellerCombine(q, M, YP, tY, CommonDaysBefore(m), tM, m >= 3, DaysFromCivil(d));
  }
}
