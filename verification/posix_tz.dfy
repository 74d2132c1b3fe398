/**
 The configuration's time-zone arithmetic: the table of zone names and their
 POSIX TZ strings (IEEE Std 1003.1, Base Definitions section 8.3, `TZ`), the
 evaluation of a TZ string with `Mm.w.d[/h]` rules at a UTC instant
 (CalculateOffset), and GetTimezoneOffset, which the widgets use.

 Offsets are in seconds east of UTC; POSIX writes them west-positive, so an
 unsigned or '+' offset is negated. A TZ string is a C string read through
 `Text.At`. A rule month outside 1..12 indexes a 12-entry table out of bounds
 in C; those evaluations are None.
 */
module PosixTz {
  import opened Wrappers
  import opened Machine
  import opened Text
  import Civil
  import Weekdays

  const NUL: char := 0 as char
  const SECONDS_PER_DAY: int := 86400
  const HOUR: int := 3600

  // ---------------------------------------------------------------------------
  // The zone table and GetPosixTz
  // ---------------------------------------------------------------------------

  const US_EASTERN: string := "EST5EDT,M3.2.0,M11.1.0"
  const US_CENTRAL: string := "CST6CDT,M3.2.0,M11.1.0"
  const US_MOUNTAIN: string := "MST7MDT,M3.2.0,M11.1.0"
  const US_PACIFIC: string := "PST8PDT,M3.2.0,M11.1.0"
  const CENTRAL_EUROPE: string := "CET-1CEST,M3.5.0,M10.5.0/3"

  /** The zone names the configuration knows, in lookup order, with their TZ strings. */
  const ZoneTable: seq<(string, string)> := [
    ("America/New_York", US_EASTERN),
    ("America/Chicago", US_CENTRAL),
    ("America/Denver", US_MOUNTAIN),
    ("America/Los_Angeles", US_PACIFIC),
    ("America/Anchorage", "AKST9AKDT,M3.2.0,M11.1.0"),
    ("America/Phoenix", "MST7"),
    ("Pacific/Honolulu", "HST10"),
    ("US/Eastern", US_EASTERN),
    ("US/Central", US_CENTRAL),
    ("US/Mountain", US_MOUNTAIN),
    ("US/Pacific", US_PACIFIC),
    ("Europe/London", "GMT0BST,M3.5.0/1,M10.5.0"),
    ("Europe/Paris", CENTRAL_EUROPE),
    ("Europe/Berlin", CENTRAL_EUROPE),
    ("UTC", "UTC0"),
    ("GMT", "GMT0"),
    ("Etc/UTC", "UTC0")]

  /** The first table entry at or after i whose name contains tz (an exact match is a containment too). */
  function LookupFrom(tz: string, i: nat): (r: Option<nat>)
    ensures r.Some? ==> i <= r.value < |ZoneTable| && Find(ZoneTable[r.value].0, tz, 0).Some?
    ensures r.Some? ==> forall k | i <= k < r.value :: Find(ZoneTable[k].0, tz, 0).None?
    ensures r.None? ==> forall k | i <= k < |ZoneTable| :: Find(ZoneTable[k].0, tz, 0).None?
    decreases |ZoneTable| - i
  {
    if i >= |ZoneTable| then None
    else if Find(ZoneTable[i].0, tz, 0).Some? then Some(i)
    else LookupFrom(tz, i + 1)
  }

  /** A name that is not in the table is taken for a TZ string if it has a ',' or a digit at index 0 or 3. */
  predicate LooksPosix(tz: string) {
    FindChar(tz, ',', 0).Some? || IsDigit(At(tz, 0)) || (|tz| >= 4 && IsDigit(tz[3]))
  }

  /** GetPosixTz: the TZ string of the first table entry matching the name, else the name itself if it looks like one, else "UTC0". */
  function GetPosixTz(tz: string): (r: string)
  {
    match LookupFrom(tz, 0)
    case Some(i) => ZoneTable[i].1
    case None => if LooksPosix(tz) then tz else "UTC0"
  }

  /**
   GetPosixTz against containment: the first entry whose name contains tz gives
   its TZ string; with no such entry, tz itself if it looks like a TZ string, else
   "UTC0".
   */
  lemma {:induction false} GetPosixTzSpec(tz: string)
    ensures forall i | 0 <= i < |ZoneTable| && Contains(ZoneTable[i].0, tz) && (forall k | 0 <= k < i :: !Contains(ZoneTable[k].0, tz)) ::
              GetPosixTz(tz) == ZoneTable[i].1
    ensures (forall k | 0 <= k < |ZoneTable| :: !Contains(ZoneTable[k].0, tz)) ==>
              GetPosixTz(tz) == (if LooksPosix(tz) then tz else "UTC0")
  {
    forall k | 0 <= k < |ZoneTable| ensures Find(ZoneTable[k].0, tz, 0).Some? <==> Contains(ZoneTable[k].0, tz) {
      FindContains(ZoneTable[k].0, tz);
    }
    var r := LookupFrom(tz, 0);
    forall i | 0 <= i < |ZoneTable| && Contains(ZoneTable[i].0, tz) && (forall k | 0 <= k < i :: !Contains(ZoneTable[k].0, tz))
      ensures GetPosixTz(tz) == ZoneTable[i].1
    {
      assert r.Some?;
      assert r.value <= i;
      assert r.value >= i;
    }
  }

  /** An exact name finds its own entry when no earlier name contains it: "America/Chicago" is Central time. */
  lemma {:induction false} ChicagoZone()
    ensures GetPosixTz("America/Chicago") == US_CENTRAL
  {
    var tz := "America/Chicago";
    var ny := ZoneTable[0].0;
    assert ny[0..15] != tz by { assert ny[0..15][8] != tz[8]; }
    assert ny[1..16] != tz by { assert ny[1..16][0] != tz[0]; }
    assert Find(ny, tz, 0).None? by {
      assert Find(ny, tz, 2).None?;
      assert Find(ny, tz, 1).None?;
    }
    assert Find(ZoneTable[1].0, tz, 0) == Some(0);
  }

  /** An empty name is contained in every name, so it takes the first entry: US Eastern time, not UTC. */
  lemma {:induction false} EmptyNameIsEastern()
    ensures GetPosixTz("") == US_EASTERN
  {
    assert ZoneTable[0].0[0..0] == "";
  }

  // ---------------------------------------------------------------------------
  // Reading a TZ string
  // ---------------------------------------------------------------------------

  predicate StartsOffset(c: char) {
    IsDigit(c) || c == '-' || c == '+'
  }

  /** Skips the standard zone name: up to the first digit or sign. */
  function SkipStdName(s: string, p: nat): (q: nat)
    requires p <= |s|
    ensures p <= q <= |s| && (At(s, q) == NUL || StartsOffset(At(s, q)))
    ensures forall k | p <= k < q :: s[k] != NUL && !StartsOffset(s[k])
    decreases |s| - p
  {
    if At(s, p) != NUL && !StartsOffset(At(s, p)) then SkipStdName(s, p + 1) else p
  }

  /** Skips the digits and colons of an offset. */
  function SkipOffset(s: string, p: nat): (q: nat)
    requires p <= |s|
    ensures p <= q <= |s| && !IsDigit(At(s, q)) && At(s, q) != ':'
    ensures forall k | p <= k < q :: IsDigit(s[k]) || s[k] == ':'
    decreases |s| - p
  {
    if At(s, p) != NUL && (IsDigit(At(s, p)) || At(s, p) == ':') then SkipOffset(s, p + 1) else p
  }

  /** Skips the daylight-saving zone name: up to the first digit, sign or ','. */
  function SkipDstName(s: string, p: nat): (q: nat)
    requires p <= |s|
    ensures p <= q <= |s| && (At(s, q) == NUL || At(s, q) == ',' || StartsOffset(At(s, q)))
    decreases |s| - p
  {
    if At(s, p) != NUL && !StartsOffset(At(s, p)) && At(s, p) != ',' then SkipDstName(s, p + 1) else p
  }

  /**
   An offset at p: an optional sign, then `atoi` hours; west of UTC (no sign or
   '+') is negative. Returns the seconds and the position after the digits.
   */
  function ReadOffset(s: string, p: nat): (r: (int, nat))
    requires p <= |s|
    ensures p <= r.1 <= |s|
  {
    var signed := At(s, p) == '-' || At(s, p) == '+';
    var q := if signed then p + 1 else p;
    var v := Atoi(Suffix(s, q)) * HOUR;
    (if At(s, p) == '-' then v else -v, SkipOffset(s, q))
  }

  /**
   The parts of a TZ string: a standard offset only, or a standard and a
   daylight offset and the positions of the start and end rules (after the first
   and second ',' of the rule part).
   */
  datatype Zone = NoDst(std: int) | Dst(std: int, dst: int, startRule: nat, endRule: nat)

  /** The two rules after the daylight offset, which ends at q: a ',' then the start rule, a second ',' then the end rule. */
  function ParseRules(s: string, std: int, dst: int, q: nat): (z: Zone)
    requires q <= |s|
    ensures z.std == std && (z.Dst? ==> z.dst == dst)
    ensures z.Dst? ==> q < z.startRule < z.endRule <= |s| && s[z.startRule - 1] == ',' && s[z.endRule - 1] == ','
    ensures z.Dst? ==> forall k | z.startRule <= k < z.endRule - 1 :: s[k] != ','
  {
    if At(s, q) != ',' then NoDst(std)
    else
      match FindChar(s, ',', q + 1)
      case None => NoDst(std)
      case Some(c) => Dst(std, dst, q + 1, c + 1)
  }

  /**
   The daylight part after the standard offset, which ends at p: a name, an
   optional offset (one hour more than the standard one when omitted), then the
   rules. Anything missing leaves the zone without summer time.
   */
  function ParseDaylight(s: string, std: int, p: nat): (z: Zone)
    requires p <= |s|
    ensures z.std == std
    ensures z.Dst? ==> p < z.startRule < z.endRule <= |s| && s[z.startRule - 1] == ',' && s[z.endRule - 1] == ','
    ensures z.Dst? ==> forall k | z.startRule <= k < z.endRule - 1 :: s[k] != ','
  {
    var n := SkipDstName(s, p);
    if At(s, n) != NUL && At(s, n) != ',' then
      var dq := ReadOffset(s, n);
      ParseRules(s, std, dq.0, dq.1)
    else ParseRules(s, std, std + HOUR, n)
  }

  /** The parsing half of CalculateOffset: the standard offset, then the daylight part unless the string ends or a ',' follows. */
  function ParseZone(s: string): (z: Zone)
    ensures z.Dst? ==> 0 < z.startRule < z.endRule <= |s|
  {
    var sp := ReadOffset(s, SkipStdName(s, 0));
    if At(s, sp.1) == NUL || At(s, sp.1) == ',' then NoDst(sp.0) else ParseDaylight(s, sp.0, sp.1)
  }

  // ---------------------------------------------------------------------------
  // ParsePosixRule
  // ---------------------------------------------------------------------------

  /** The fields of an "Mm.w.d" rule, each read with `atoi` into `unsigned`, and the position after the second '.'. */
  datatype RuleFields = RuleFields(month: u32, week: u32, weekday: u32, rest: nat)

  /**
   The positions of the two '.' of the rule at r; None unless it starts with 'M'
   and two '.' follow. Each '.' is searched for in the rest of the whole string.
   */
  function RuleDots(s: string, r: nat): (d: Option<(nat, nat)>)
    ensures d.Some? ==> r < d.value.0 < d.value.1 < |s| && s[d.value.0] == '.' && s[d.value.1] == '.'
  {
    if At(s, r) != 'M' then None
    else
      var dot1 := FindChar(s, '.', r + 1);
      if dot1.None? then None
      else
        var dot2 := FindChar(s, '.', dot1.value + 1);
        if dot2.None? then None
        else Some((dot1.value, dot2.value))
  }

  /** The fields of the rule at r, read at its dots. */
  function ReadRule(s: string, r: nat): (f: Option<RuleFields>)
  {
    match RuleDots(s, r)
    case None => None
    case Some((a, b)) => Some(RuleAt(s, r, a, b))
  }

  /** The fields of an `Mm.w.d` rule whose 'M' is at r and whose dots are at a and b: each read with `atoi`. */
  function RuleAt(s: string, r: nat, a: nat, b: nat): (f: RuleFields)
    ensures f.rest == b + 1
  {
    RuleFields(U32(Atoi(Suffix(s, r + 1))), U32(Atoi(Suffix(s, a + 1))), U32(Atoi(Suffix(s, b + 1))), b + 1)
  }

  /**
   The transition hour as written: `atoi` after the first '/' anywhere in the rest
   of the string, 2 if there is none. For a start rule the search runs on into the
   end rule.
   */
  function HourAsWritten(s: string, q: nat): (h: u32)
  {
    match FindChar(s, '/', q)
    case Some(k) => U32(Atoi(Suffix(s, k + 1)))
    case None => 2
  }

  /** The transition hour as the format intends: only a '/' before the rule's closing ',' counts. */
  function Hour(s: string, q: nat): (h: u32)
    ensures FindChar(s, ',', q).None? ==> h == HourAsWritten(s, q)
  {
    match FindChar(s, '/', q)
    case Some(k) =>
      if FindChar(s, ',', q).Some? && FindChar(s, ',', q).value < k then 2
      else U32(Atoi(Suffix(s, k + 1)))
    case None => 2
  }

  /**
   The transition day of a rule in the given year: 0 for a rule not of the form
   "Mm.w.d", else GetNthWeekday (week 5 is the last occurrence); None when the
   month indexes the month table out of bounds.
   */
  function RuleDay(f: Option<RuleFields>, year: u32): (d: Option<u32>)
    ensures d.None? <==> f.Some? && !(1 <= f.value.month <= 12)
  {
    if f.None? then Some(0)
    else if 1 <= f.value.month <= 12 then Some(Weekdays.NthWeekdayOfMonth(year, f.value.month, f.value.week, f.value.weekday))
    else None
  }

  /** ParsePosixRule as written: the transition day and hour of the rule at r. */
  function ParsePosixRuleAsWritten(s: string, r: nat, year: u32): (t: Option<(u32, u32)>)
  {
    var f := ReadRule(s, r);
    match RuleDay(f, year)
    case None => None
    case Some(d) => Some((d, if f.Some? then HourAsWritten(s, f.value.rest) else 2))
  }

  /** ParsePosixRule with the hour search kept inside the rule. */
  function ParsePosixRule(s: string, r: nat, year: u32): (t: Option<(u32, u32)>)
    ensures t.Some? <==> ParsePosixRuleAsWritten(s, r, year).Some?
    ensures t.Some? ==> t.value.0 == ParsePosixRuleAsWritten(s, r, year).value.0
  {
    var f := ReadRule(s, r);
    match RuleDay(f, year)
    case None => None
    case Some(d) => Some((d, if f.Some? then Hour(s, f.value.rest) else 2))
  }

  // ---------------------------------------------------------------------------
  // CalculateOffset
  // ---------------------------------------------------------------------------

  /** The summer-time window of one year: the two rule months, transition days of the year (0-based) and hours. */
  datatype Window = Window(startMonth: u32, startDoy: u32, startHour: u32, endMonth: u32, endDoy: u32, endHour: u32)

  /**
   The summer-time test of CalculateOffset, once the transition-day tests are
   known: a window in one year (start month before end month) or one across the
   new year; on a transition day the given comparison decides.
   */
  predicate InWindowWith(w: Window, doy: int, started: bool, notEnded: bool) {
    if w.startMonth < w.endMonth then
      if doy > w.startDoy && doy < w.endDoy then true
      else if doy == w.startDoy then started
      else if doy == w.endDoy then notEnded
      else false
    else
      if doy > w.startDoy || doy < w.endDoy then true
      else if doy == w.startDoy then started
      else if doy == w.endDoy then notEnded
      else false
  }

  /**
   As written: the UTC second of the day plus the offset is an `unsigned + int`,
   so for a zone west of UTC it wraps to a huge value early in the UTC day.
   */
  predicate InDstAsWritten(w: Window, doy: int, sod: int, std: int, dst: int) {
    InWindowWith(w, doy, U32(sod + std) >= U32(w.startHour * HOUR), U32(sod + dst) < U32(w.endHour * HOUR))
  }

  /** As intended: the local standard (or daylight) second of the day compared with the transition hour. */
  predicate InDst(w: Window, doy: int, sod: int, std: int, dst: int) {
    InWindowWith(w, doy, sod + std >= w.startHour * HOUR, sod + dst < w.endHour * HOUR)
  }

  /** The 0-based day of the year of day `day` of `month`, in `unsigned`; None past the 12-entry table. */
  function DayOfYear(month: u32, day: u32, leap: bool): (r: Option<u32>)
    ensures r.Some? <==> 1 <= month <= 12
  {
    if 1 <= month <= 12 then Some(U32(Civil.MonthStart(leap, month) + day - 1)) else None
  }

  /** A rule's transition day and hour, by ParsePosixRule as written or corrected. */
  function Transition(s: string, r: nat, year: int, asWritten: bool): (d: Option<(u32, u32)>)
  {
    if asWritten then ParsePosixRuleAsWritten(s, r, U32(year)) else ParsePosixRule(s, r, U32(year))
  }

  /** The window from the two transitions and the two rule months; None past the month table. */
  function WindowFrom(st: Option<(u32, u32)>, en: Option<(u32, u32)>, sm: u32, em: u32, leap: bool): (w: Option<Window>)
  {
    if st.None? || en.None? then None
    else
      var sd := DayOfYear(sm, st.value.0, leap);
      var ed := DayOfYear(em, en.value.0, leap);
      if sd.None? || ed.None? then None
      else Some(Window(sm, sd.value, st.value.1, em, ed.value, en.value.1))
  }

  /**
   The window of the year: each rule's transition and its month read again with
   `atoi` after the rule's first character.
   */
  function WindowOf(s: string, z: Zone, year: int, asWritten: bool): (w: Option<Window>)
    requires z.Dst?
  {
    WindowFrom(Transition(s, z.startRule, year, asWritten), Transition(s, z.endRule, year, asWritten),
               U32(Atoi(Suffix(s, z.startRule + 1))), U32(Atoi(Suffix(s, z.endRule + 1))), Civil.IsLeap(year))
  }

  /** The UTC year of a timestamp and the 0-based day within it (the year loop of CalculateOffset). */
  function YearAndDay(t: u32): (r: (int, nat))
    ensures r.0 >= 1970 && r.1 < Civil.DaysInYear(r.0)
    ensures Civil.DaysBeforeYear(r.0) + r.1 == t / SECONDS_PER_DAY
    ensures r.0 <= 2106
  {
    var r := Civil.SplitYears(t / SECONDS_PER_DAY, 1970);
    Civil.DaysBeforeYearMonotone(1970, r.0);
    r
  }

  /** The 0-based day of the year of the `week`-th Sunday of `month` in year y (week 5: the last). */
  function SundayOfYear(y: int, month: u32, week: u32): (d: int)
    requires 1970 <= y < TWO32 && 1 <= month <= 12 && 1 <= week <= 5
    ensures 0 <= d < Civil.DaysInYear(y)
    ensures d == Civil.DaysFromCivil(Civil.Date(y, month, Weekdays.NthWeekdayOfMonth(y, month, week, 0))) - Civil.DaysBeforeYear(y)
  {
    var n := Weekdays.NthWeekdayOfMonth(y, month, week, 0);
    Weekdays.NthWeekdayIsNth(y, month, week, 0);
    Civil.DayOfYearBounds(Civil.Date(y, month, n));
    Civil.MonthStart(Civil.IsLeap(y), month) + n - 1
  }

  function OffsetAt(s: string, t: u32, asWritten: bool): (r: Option<int>)
    ensures r.Some? ==> r.value == ParseZone(s).std || (ParseZone(s).Dst? && r.value == ParseZone(s).dst)
    ensures ParseZone(s).NoDst? ==> r == Some(ParseZone(s).std)
  {
    match ParseZone(s)
    case NoDst(std) => Some(std)
    case Dst(std, dst, _, _) =>
      var (year, doy) := YearAndDay(t);
      match WindowOf(s, ParseZone(s), year, asWritten)
      case None => None
      case Some(w) =>
        var summer := if asWritten then InDstAsWritten(w, doy, t % SECONDS_PER_DAY, std, dst)
                      else InDst(w, doy, t % SECONDS_PER_DAY, std, dst);
        Some(if summer then dst else std)
  }

  /** CalculateOffset as written: the offset east of UTC at UTC time t, or None when a rule month is out of range. */
  function CalculateOffsetAsWritten(s: string, t: u32): (r: Option<int>)
    ensures r.Some? ==> r.value == ParseZone(s).std || (ParseZone(s).Dst? && r.value == ParseZone(s).dst)
  {
    OffsetAt(s, t, true)
  }

  /** CalculateOffset with the transition-day comparison in signed arithmetic and the hour search kept inside each rule. */
  function CalculateOffset(s: string, t: u32): (r: Option<int>)
    ensures r.Some? ==> r.value == ParseZone(s).std || (ParseZone(s).Dst? && r.value == ParseZone(s).dst)
    ensures r.Some? <==> CalculateOffsetAsWritten(s, t).Some?
  {
    OffsetAt(s, t, false)
  }

  /** GetTimezoneOffset: the offset of the zone's TZ string at UTC time t. */
  function GetTimezoneOffset(tz: string, t: u32): (r: Option<int>)
  {
    CalculateOffset(GetPosixTz(tz), t)
  }

  /** CalculateOffset's answer once the zone and the window of the UTC year are known. */
  lemma {:induction false} OffsetOfWindow(s: string, t: u32, asWritten: bool, std: int, dst: int, w: Window)
    requires ParseZone(s).Dst? && ParseZone(s).std == std && ParseZone(s).dst == dst
    requires WindowOf(s, ParseZone(s), YearAndDay(t).0, asWritten) == Some(w)
    ensures var doy, sod := YearAndDay(t).1, t % SECONDS_PER_DAY;
      OffsetAt(s, t, asWritten)
      == Some(if (if asWritten then InDstAsWritten(w, doy, sod, std, dst) else InDst(w, doy, sod, std, dst)) then dst else std)
  {
  }

  // ---------------------------------------------------------------------------
  // The summer-time test against the transition instants
  // ---------------------------------------------------------------------------

  /**
   For rules within one year whose transitions fall inside the UTC day they are
   named for, the corrected test is exactly: on or after the start hour in local
   standard time and before the end hour in local daylight time, counted in UTC
   seconds from the start of the year.
   */
  lemma {:induction false} InDstIsInterval(w: Window, doy: int, sod: int, std: int, dst: int)
    requires w.startMonth < w.endMonth && w.startDoy < w.endDoy
    requires 0 <= sod < SECONDS_PER_DAY
    requires 0 <= w.startHour * HOUR - std < SECONDS_PER_DAY
    requires 0 <= w.endHour * HOUR - dst < SECONDS_PER_DAY
    ensures InDst(w, doy, sod, std, dst)
        <==> w.startDoy * SECONDS_PER_DAY + w.startHour * HOUR - std
             <= doy * SECONDS_PER_DAY + sod
             < w.endDoy * SECONDS_PER_DAY + w.endHour * HOUR - dst
  {
    if doy < w.startDoy {
      assert doy * SECONDS_PER_DAY + sod < w.startDoy * SECONDS_PER_DAY;
    } else if doy > w.endDoy {
      assert doy * SECONDS_PER_DAY >= w.endDoy * SECONDS_PER_DAY + SECONDS_PER_DAY;
    } else if w.startDoy < doy < w.endDoy {
      assert doy * SECONDS_PER_DAY >= w.startDoy * SECONDS_PER_DAY + SECONDS_PER_DAY;
      assert doy * SECONDS_PER_DAY + SECONDS_PER_DAY <= w.endDoy * SECONDS_PER_DAY;
    } else if doy == w.startDoy {
      assert doy * SECONDS_PER_DAY + SECONDS_PER_DAY <= w.endDoy * SECONDS_PER_DAY;
    } else {
      assert doy * SECONDS_PER_DAY >= w.startDoy * SECONDS_PER_DAY + SECONDS_PER_DAY;
    }
  }

  /**
   The `unsigned` comparisons agree with the signed ones on a transition day
   whenever the second of the day plus the offset is not negative.
   */
  lemma {:induction false} AsWrittenAgrees(w: Window, doy: int, sod: int, std: int, dst: int)
    requires w.startHour * HOUR < TWO32 && w.endHour * HOUR < TWO32
    requires doy == w.startDoy ==> 0 <= sod + std < TWO32
    requires doy == w.endDoy ==> 0 <= sod + dst < TWO32
    ensures InDstAsWritten(w, doy, sod, std, dst) == InDst(w, doy, sod, std, dst)
  {
  }

  /**
   West of UTC, before the offset's worth of seconds into the UTC start day, the
   `unsigned` sum wraps and the start test passes although local standard time is
   still the day before.
   */
  lemma {:induction false} StartDayWraps(w: Window, doy: int, sod: int, std: int, dst: int)
    requires w.startMonth < w.endMonth && doy == w.startDoy < w.endDoy
    requires w.startHour * HOUR < TWO32
    requires -TWO32 <= sod + std < 0 && w.startHour * HOUR <= sod + std + TWO32
    ensures InDstAsWritten(w, doy, sod, std, dst) && !InDst(w, doy, sod, std, dst)
  {
  }

  /**
   Likewise on the end day: while the second of the day plus the daylight offset
   is negative, the `unsigned` sum wraps and the end test fails although local
   daylight time has not reached the end hour.
   */
  lemma {:induction false} EndDayWraps(w: Window, doy: int, sod: int, std: int, dst: int)
    requires w.startMonth < w.endMonth && w.startDoy < w.endDoy == doy
    requires w.endHour * HOUR < TWO32
    requires -TWO32 <= sod + dst < 0 && w.endHour * HOUR <= sod + dst + TWO32
    ensures !InDstAsWritten(w, doy, sod, std, dst) && InDst(w, doy, sod, std, dst)
  {
  }

  // ---------------------------------------------------------------------------
  // The table's rule strings
  // ---------------------------------------------------------------------------

  /** `atoi` of a single digit followed by a non-digit or the end. */
  lemma {:induction false} AtoiOfDigit(s: string, p: nat)
    requires p < |s| && IsDigit(s[p]) && (p + 1 < |s| ==> !IsDigit(s[p + 1]))
    ensures Atoi(Suffix(s, p)) == DigitValue(s[p])
  {
    var t := s[p..];
    assert t[1..] == s[p + 1..];
    assert LeadingValue(t[1..], DigitValue(s[p])) == DigitValue(s[p]);
  }

  /** `atoi` of two digits followed by a non-digit or the end. */
  lemma {:induction false} AtoiOfTwoDigits(s: string, p: nat)
    requires p + 1 < |s| && IsDigit(s[p]) && IsDigit(s[p + 1]) && (p + 2 < |s| ==> !IsDigit(s[p + 2]))
    ensures Atoi(Suffix(s, p)) == 10 * DigitValue(s[p]) + DigitValue(s[p + 1])
  {
    var t := s[p..];
    var v := 10 * DigitValue(s[p]) + DigitValue(s[p + 1]);
    assert t[1..][0] == s[p + 1];
    assert t[1..][1..] == s[p + 2..];
    assert LeadingValue(t[1..][1..], v) == v;
    assert LeadingValue(t[1..], DigitValue(s[p])) == v;
  }

  /** ReadRule reads its fields at the dots its scans find. */
  lemma ReadRuleAt(s: string, r: nat, a: nat, b: nat)
    requires RuleDots(s, r) == Some((a, b))
    ensures ReadRule(s, r) == Some(RuleAt(s, r, a, b))
  {
  }

  /** An unsigned one-digit offset is that many hours west of UTC. */
  lemma {:induction false} OneDigitOffset(s: string, p: nat)
    requires p < |s| && IsDigit(s[p]) && (p + 1 < |s| ==> !IsDigit(s[p + 1]) && s[p + 1] != ':')
    ensures ReadOffset(s, p) == (-(DigitValue(s[p]) as int) * HOUR, p + 1)
  {
    AtoiOfDigit(s, p);
    assert SkipOffset(s, p + 1) == p + 1;
  }

  /** A one-digit offset after '-' is that many hours east of UTC. */
  lemma {:induction false} NegativeOneDigitOffset(s: string, p: nat)
    requires p + 2 < |s| && s[p] == '-' && IsDigit(s[p + 1]) && !IsDigit(s[p + 2]) && s[p + 2] != ':'
    ensures ReadOffset(s, p) == (DigitValue(s[p + 1]) * HOUR, p + 2)
  {
    AtoiOfDigit(s, p + 1);
    assert SkipOffset(s, p + 2) == p + 2;
  }

  /** The month of an "Mm.w.d" rule whose month has n digits. */
  function RuleMonth(s: string, r: nat, n: nat): nat
    requires (n == 1 || n == 2) && r + n < |s| && IsDigit(s[r + 1]) && (n == 2 ==> IsDigit(s[r + 2]))
  {
    if n == 1 then DigitValue(s[r + 1]) else 10 * DigitValue(s[r + 1]) + DigitValue(s[r + 2])
  }

  /** ReadRule of "Mm.w.d" with an n-digit month and one-digit week and weekday, followed by a non-digit or the end. */
  lemma {:induction false} RuleOfDigits(s: string, r: nat, n: nat)
    requires (n == 1 || n == 2) && r + n + 5 <= |s| && s[r] == 'M'
    requires IsDigit(s[r + 1]) && (n == 2 ==> IsDigit(s[r + 2]))
    requires s[r + n + 1] == '.' && IsDigit(s[r + n + 2]) && s[r + n + 3] == '.' && IsDigit(s[r + n + 4])
    requires r + n + 5 < |s| ==> !IsDigit(s[r + n + 5])
    ensures Atoi(Suffix(s, r + 1)) == RuleMonth(s, r, n)
    ensures ReadRule(s, r) == Some(RuleFields(RuleMonth(s, r, n), DigitValue(s[r + n + 2]), DigitValue(s[r + n + 4]), r + n + 4))
  {
    DotsOfDigits(s, r, n);
    ReadRuleAt(s, r, r + n + 1, r + n + 3);
    FieldsOfDigits(s, r, n);
  }

  /** The dots of "Mm.w.d" with an n-digit month and one-digit week. */
  lemma {:induction false} DotsOfDigits(s: string, r: nat, n: nat)
    requires (n == 1 || n == 2) && r + n + 4 <= |s| && s[r] == 'M'
    requires IsDigit(s[r + 1]) && (n == 2 ==> IsDigit(s[r + 2]))
    requires s[r + n + 1] == '.' && IsDigit(s[r + n + 2]) && s[r + n + 3] == '.'
    ensures RuleDots(s, r) == Some((r + n + 1, r + n + 3))
  {
    if n == 2 {
      assert FindChar(s, '.', r + 2) == Some(r + 3);
    }
    assert FindChar(s, '.', r + 1) == Some(r + n + 1);
    assert FindChar(s, '.', r + n + 2) == Some(r + n + 3);
  }

  /** The fields of "Mm.w.d" with an n-digit month and one-digit week and weekday, followed by a non-digit or the end. */
  lemma {:induction false} FieldsOfDigits(s: string, r: nat, n: nat)
    requires (n == 1 || n == 2) && r + n + 5 <= |s|
    requires IsDigit(s[r + 1]) && (n == 2 ==> IsDigit(s[r + 2]))
    requires s[r + n + 1] == '.' && IsDigit(s[r + n + 2]) && s[r + n + 3] == '.' && IsDigit(s[r + n + 4])
    requires r + n + 5 < |s| ==> !IsDigit(s[r + n + 5])
    ensures Atoi(Suffix(s, r + 1)) == RuleMonth(s, r, n)
    ensures RuleAt(s, r, r + n + 1, r + n + 3) == RuleFields(RuleMonth(s, r, n), DigitValue(s[r + n + 2]), DigitValue(s[r + n + 4]), r + n + 4)
  {
    if n == 1 {
      AtoiOfDigit(s, r + 1);
    } else {
      AtoiOfTwoDigits(s, r + 1);
    }
    AtoiOfDigit(s, r + n + 2);
    AtoiOfDigit(s, r + n + 4);
  }

  /** ParseZone from the results of its scans, for a zone whose daylight name carries no offset. */
  lemma {:induction false} ZoneOfScans(s: string, p: nat, std: int, q: nat, n: nat, c: nat)
    requires SkipStdName(s, 0) == p && ReadOffset(s, p) == (std, q)
    requires q <= |s| && At(s, q) != NUL && At(s, q) != ','
    requires SkipDstName(s, q) == n && At(s, n) == ',' && FindChar(s, ',', n + 1) == Some(c)
    ensures ParseZone(s) == Dst(std, std + HOUR, n + 1, c + 1)
  {
  }

  /** "CST6CDT,M3.2.0,M11.1.0": the standard name ends at 3. */
  lemma {:induction false} CentralName(s: string)
    requires s == "CST6CDT,M3.2.0,M11.1.0"
    ensures SkipStdName(s, 0) == 3
  {
    assert SkipStdName(s, 3) == 3;
    assert SkipStdName(s, 2) == 3;
    assert SkipStdName(s, 1) == 3;
  }

  /** "CST6CDT,M3.2.0,M11.1.0": the offset "6" ends at 4. */
  lemma {:induction false} CentralStd(s: string)
    requires s == "CST6CDT,M3.2.0,M11.1.0"
    ensures ReadOffset(s, 3) == (-6 * HOUR, 4) && At(s, 4) == 'C'
  {
    assert s[3] == '6' && s[4] == 'C';
    OneDigitOffset(s, 3);
  }

  lemma {:induction false} CentralDaylight(s: string)
    requires s == "CST6CDT,M3.2.0,M11.1.0"
    ensures SkipDstName(s, 4) == 7 && At(s, 7) == ',' && FindChar(s, ',', 8) == Some(14)
  {
    assert SkipDstName(s, 7) == 7;
    assert SkipDstName(s, 6) == 7;
    assert SkipDstName(s, 5) == 7;
    assert FindChar(s, ',', 14) == Some(14);
    assert FindChar(s, ',', 13) == Some(14);
    assert FindChar(s, ',', 12) == Some(14);
    assert FindChar(s, ',', 11) == Some(14);
    assert FindChar(s, ',', 10) == Some(14);
    assert FindChar(s, ',', 9) == Some(14);
  }

  /** US Central time: six hours west, daylight time one hour less, rules at 8 and 15. */
  lemma {:induction false} CentralZone(s: string)
    requires s == "CST6CDT,M3.2.0,M11.1.0"
    ensures ParseZone(s) == Dst(-6 * HOUR, -5 * HOUR, 8, 15)
  {
    CentralName(s);
    CentralStd(s);
    CentralDaylight(s);
    ZoneOfScans(s, 3, -6 * HOUR, 4, 7, 14);
  }

  lemma {:induction false} CentralNoHours(s: string)
    requires s == "CST6CDT,M3.2.0,M11.1.0"
    ensures FindChar(s, '/', 13).None? && FindChar(s, '/', 21).None?
  {
    assert '/' !in s;
  }

  /** The characters of the two US rules "M3.2.0,M11.1.0" at the end of the string, from position 8. */
  predicate UsRuleText(s: string)
  {
    |s| == 22 && s[8] == 'M' && s[9] == '3' && s[10] == '.' && s[11] == '2' && s[12] == '.' && s[13] == '0'
    && s[14] == ',' && s[15] == 'M' && s[16] == '1' && s[17] == '1' && s[18] == '.' && s[19] == '1'
    && s[20] == '.' && s[21] == '0'
  }

  /** The US rules: second Sunday of March and first Sunday of November. */
  lemma {:induction false} UsRules(s: string)
    requires UsRuleText(s)
    ensures ReadRule(s, 8) == Some(RuleFields(3, 2, 0, 13)) && Atoi(Suffix(s, 9)) == 3
    ensures ReadRule(s, 15) == Some(RuleFields(11, 1, 0, 21)) && Atoi(Suffix(s, 16)) == 11
  {
    RuleOfDigits(s, 8, 1);
    RuleOfDigits(s, 15, 2);
  }

  /** The rules of Central time, with no hours given. */
  lemma {:induction false} CentralRules(s: string)
    requires s == "CST6CDT,M3.2.0,M11.1.0"
    ensures ReadRule(s, 8) == Some(RuleFields(3, 2, 0, 13)) && Atoi(Suffix(s, 9)) == 3
    ensures ReadRule(s, 15) == Some(RuleFields(11, 1, 0, 21)) && Atoi(Suffix(s, 16)) == 11
    ensures FindChar(s, '/', 13).None? && FindChar(s, '/', 21).None?
  {
    assert UsRuleText(s);
    UsRules(s);
    CentralNoHours(s);
  }

  // ---------------------------------------------------------------------------
  // US Central time
  // ---------------------------------------------------------------------------

  /** The transition of an "Mm.w.d" rule with a month in range: the day GetNthWeekday gives, at hour h. */
  lemma {:induction false} TransitionOfRule(s: string, r: nat, year: int, asWritten: bool, f: RuleFields, h: u32)
    requires 1970 <= year < TWO32
    requires ReadRule(s, r) == Some(f) && 1 <= f.month <= 12
    requires (if asWritten then HourAsWritten(s, f.rest) else Hour(s, f.rest)) == h
    ensures Transition(s, r, year, asWritten) == Some((Weekdays.NthWeekdayOfMonth(year, f.month, f.week, f.weekday), h))
  {
  }

  /** The window of two Sunday rules in year y. */
  lemma {:induction false} WindowOfSundays(y: int, sm: u32, sw: u32, sh: u32, em: u32, ew: u32, eh: u32)
    requires 1970 <= y < TWO32 && 1 <= sm <= 12 && 1 <= em <= 12 && 1 <= sw <= 5 && 1 <= ew <= 5
    ensures WindowFrom(Some((Weekdays.NthWeekdayOfMonth(y, sm, sw, 0), sh)), Some((Weekdays.NthWeekdayOfMonth(y, em, ew, 0), eh)), sm, em, Civil.IsLeap(y))
         == Some(Window(sm, SundayOfYear(y, sm, sw), sh, em, SundayOfYear(y, em, ew), eh))
  {
    var sd := SundayOfYear(y, sm, sw);
    var ed := SundayOfYear(y, em, ew);
    assert DayOfYear(sm, Weekdays.NthWeekdayOfMonth(y, sm, sw, 0), Civil.IsLeap(y)) == Some(sd as u32);
    assert DayOfYear(em, Weekdays.NthWeekdayOfMonth(y, em, ew, 0), Civil.IsLeap(y)) == Some(ed as u32);
  }

  /** The summer-time window of US Central time in year y, hours at 02:00 for both rules. */
  lemma {:induction false} CentralWindow(s: string, y: int, asWritten: bool)
    requires s == US_CENTRAL && 1970 <= y < TWO32
    ensures WindowOf(s, Dst(-6 * HOUR, -5 * HOUR, 8, 15), y, asWritten)
         == Some(Window(3, SundayOfYear(y, 3, 2), 2, 11, SundayOfYear(y, 11, 1), 2))
  {
    CentralRules(s);
    TransitionOfRule(s, 8, y, asWritten, RuleFields(3, 2, 0, 13), 2);
    TransitionOfRule(s, 15, y, asWritten, RuleFields(11, 1, 0, 21), 2);
    WindowOfSundays(y, 3, 2, 2, 11, 1, 2);
  }

  /** CalculateOffset of US Central time, as written and corrected, in terms of the window of the UTC year. */
  lemma {:induction false} CentralWindows(t: u32)
    ensures var (y, doy) := YearAndDay(t);
      var sod := t % SECONDS_PER_DAY;
      var w := Window(3, SundayOfYear(y, 3, 2), 2, 11, SundayOfYear(y, 11, 1), 2);
      && CalculateOffsetAsWritten(US_CENTRAL, t) == Some(if InDstAsWritten(w, doy, sod, -6 * HOUR, -5 * HOUR) then -5 * HOUR else -6 * HOUR)
      && CalculateOffset(US_CENTRAL, t) == Some(if InDst(w, doy, sod, -6 * HOUR, -5 * HOUR) then -5 * HOUR else -6 * HOUR)
  {
    var (y, doy) := YearAndDay(t);
    CentralZone(US_CENTRAL);
    CentralWindow(US_CENTRAL, y, true);
    CentralWindow(US_CENTRAL, y, false);
    var w := Window(3, SundayOfYear(y, 3, 2), 2, 11, SundayOfYear(y, 11, 1), 2);
    OffsetOfWindow(US_CENTRAL, t, true, -6 * HOUR, -5 * HOUR, w);
    OffsetOfWindow(US_CENTRAL, t, false, -6 * HOUR, -5 * HOUR, w);
  }

  /**
   US summer time of year y for a zone `west` hours behind UTC, in UTC seconds:
   from 02:00 local standard time on the second Sunday of March up to 02:00 local
   daylight time on the first Sunday of November.
   */
  predicate UsSummer(y: int, west: int, t: int)
    requires 1970 <= y < TWO32
  {
    var start := Civil.DaysFromCivil(Civil.Date(y, 3, Weekdays.NthWeekdayOfMonth(y, 3, 2, 0)));
    var end := Civil.DaysFromCivil(Civil.Date(y, 11, Weekdays.NthWeekdayOfMonth(y, 11, 1, 0)));
    start * SECONDS_PER_DAY + (2 + west) * HOUR <= t < end * SECONDS_PER_DAY + (1 + west) * HOUR
  }

  /** The US Sunday rules fall in March (day 66..73 of the year) and November (day 304..311). */
  lemma {:induction false} UsSundays(y: int)
    requires 1970 <= y < TWO32
    ensures 66 <= SundayOfYear(y, 3, 2) <= 73 && 304 <= SundayOfYear(y, 11, 1) <= 311
  {
    Weekdays.UsDstWindow(y, 3, 1);
  }

  /** CalculateOffset of US Central time is daylight time (-5 h) exactly in the US summer of the UTC year. */
  lemma {:induction false} CentralOffset(t: u32)
    ensures CalculateOffset(US_CENTRAL, t) == Some(if UsSummer(YearAndDay(t).0, 6, t) then -5 * HOUR else -6 * HOUR)
  {
    var (y, doy) := YearAndDay(t);
    var sod := t % SECONDS_PER_DAY;
    CentralWindows(t);
    UsSundays(y);
    var w := Window(3, SundayOfYear(y, 3, 2), 2, 11, SundayOfYear(y, 11, 1), 2);
    InDstIsInterval(w, doy, sod, -6 * HOUR, -5 * HOUR);
    assert t == (Civil.DaysBeforeYear(y) + doy) * SECONDS_PER_DAY + sod;
  }

  /**
   As written, the first six hours (UTC) of the spring transition day, still
   Saturday evening in Chicago, come out as daylight time.
   */
  lemma {:induction false} CentralSpringWrap(t: u32)
    requires YearAndDay(t).1 == SundayOfYear(YearAndDay(t).0, 3, 2) && t % SECONDS_PER_DAY < 6 * HOUR
    ensures CalculateOffsetAsWritten(US_CENTRAL, t) == Some(-5 * HOUR)
    ensures CalculateOffset(US_CENTRAL, t) == Some(-6 * HOUR)
  {
    var (y, doy) := YearAndDay(t);
    var sod := t % SECONDS_PER_DAY;
    CentralWindows(t);
    UsSundays(y);
    var w := Window(3, SundayOfYear(y, 3, 2), 2, 11, SundayOfYear(y, 11, 1), 2);
    StartDayWraps(w, doy, sod, -6 * HOUR, -5 * HOUR);
  }

  /**
   As written, the first five hours (UTC) of the autumn transition day, still
   Saturday evening daylight time in Chicago, come out as standard time.
   */
  lemma {:induction false} CentralFallWrap(t: u32)
    requires YearAndDay(t).1 == SundayOfYear(YearAndDay(t).0, 11, 1) && t % SECONDS_PER_DAY < 5 * HOUR
    ensures CalculateOffsetAsWritten(US_CENTRAL, t) == Some(-6 * HOUR)
    ensures CalculateOffset(US_CENTRAL, t) == Some(-5 * HOUR)
  {
    var (y, doy) := YearAndDay(t);
    var sod := t % SECONDS_PER_DAY;
    CentralWindows(t);
    UsSundays(y);
    var w := Window(3, SundayOfYear(y, 3, 2), 2, 11, SundayOfYear(y, 11, 1), 2);
    EndDayWraps(w, doy, sod, -6 * HOUR, -5 * HOUR);
  }

  /** Outside those two stretches the code as written gives the corrected offset. */
  lemma {:induction false} CentralAgreesElsewhere(t: u32)
    requires !(YearAndDay(t).1 == SundayOfYear(YearAndDay(t).0, 3, 2) && t % SECONDS_PER_DAY < 6 * HOUR)
    requires !(YearAndDay(t).1 == SundayOfYear(YearAndDay(t).0, 11, 1) && t % SECONDS_PER_DAY < 5 * HOUR)
    ensures CalculateOffsetAsWritten(US_CENTRAL, t) == CalculateOffset(US_CENTRAL, t)
  {
    var (y, doy) := YearAndDay(t);
    var sod := t % SECONDS_PER_DAY;
    CentralWindows(t);
    var w := Window(3, SundayOfYear(y, 3, 2), 2, 11, SundayOfYear(y, 11, 1), 2);
    AsWrittenAgrees(w, doy, sod, -6 * HOUR, -5 * HOUR);
  }

  // ---------------------------------------------------------------------------
  // Central European time
  // ---------------------------------------------------------------------------

  /** "CET-1CEST,M3.5.0,M10.5.0/3": the standard name ends at the '-' at 3. */
  lemma {:induction false} CetName(s: string)
    requires s == "CET-1CEST,M3.5.0,M10.5.0/3"
    ensures SkipStdName(s, 0) == 3
  {
    assert SkipStdName(s, 3) == 3;
    assert SkipStdName(s, 2) == 3;
    assert SkipStdName(s, 1) == 3;
  }

  /** The offset "-1" is one hour east and ends at 5. */
  lemma {:induction false} CetStd(s: string)
    requires s == "CET-1CEST,M3.5.0,M10.5.0/3"
    ensures ReadOffset(s, 3) == (HOUR, 5) && At(s, 5) == 'C'
  {
    assert s[3] == '-' && s[4] == '1' && s[5] == 'C';
    NegativeOneDigitOffset(s, 3);
  }

  lemma {:induction false} CetDaylight(s: string)
    requires s == "CET-1CEST,M3.5.0,M10.5.0/3"
    ensures SkipDstName(s, 5) == 9 && At(s, 9) == ',' && FindChar(s, ',', 10) == Some(16)
  {
    assert SkipDstName(s, 9) == 9;
    assert SkipDstName(s, 8) == 9;
    assert SkipDstName(s, 7) == 9;
    assert SkipDstName(s, 6) == 9;
    assert FindChar(s, ',', 16) == Some(16);
    assert FindChar(s, ',', 15) == Some(16);
    assert FindChar(s, ',', 14) == Some(16);
    assert FindChar(s, ',', 13) == Some(16);
    assert FindChar(s, ',', 12) == Some(16);
    assert FindChar(s, ',', 11) == Some(16);
  }

  /** Central European time: one hour east, daylight time two hours east, rules at 10 and 17. */
  lemma {:induction false} CetZone(s: string)
    requires s == "CET-1CEST,M3.5.0,M10.5.0/3"
    ensures ParseZone(s) == Dst(HOUR, 2 * HOUR, 10, 17)
  {
    CetName(s);
    CetStd(s);
    CetDaylight(s);
    ZoneOfScans(s, 3, HOUR, 5, 9, 16);
  }

  /** The characters of the two EU rules "M3.5.0,M10.5.0" at position 10. */
  predicate EuRuleText(s: string)
  {
    |s| > 24 && s[10] == 'M' && s[11] == '3' && s[12] == '.' && s[13] == '5' && s[14] == '.' && s[15] == '0'
    && s[16] == ',' && s[17] == 'M' && s[18] == '1' && s[19] == '0' && s[20] == '.' && s[21] == '5'
    && s[22] == '.' && s[23] == '0' && s[24] == '/'
  }

  /** The EU rules: last Sunday of March and last Sunday of October. */
  lemma {:induction false} EuRules(s: string)
    requires EuRuleText(s)
    ensures ReadRule(s, 10) == Some(RuleFields(3, 5, 0, 15)) && Atoi(Suffix(s, 11)) == 3
    ensures ReadRule(s, 17) == Some(RuleFields(10, 5, 0, 23)) && Atoi(Suffix(s, 18)) == 10
  {
    RuleOfDigits(s, 10, 1);
    RuleOfDigits(s, 17, 2);
  }

  /** The rules of Central European time. */
  lemma {:induction false} CetRules(s: string)
    requires s == "CET-1CEST,M3.5.0,M10.5.0/3"
    ensures ReadRule(s, 10) == Some(RuleFields(3, 5, 0, 15)) && Atoi(Suffix(s, 11)) == 3
    ensures ReadRule(s, 17) == Some(RuleFields(10, 5, 0, 23)) && Atoi(Suffix(s, 18)) == 10
  {
    assert EuRuleText(s);
    EuRules(s);
  }

  /**
   The hour searches of the two rules: from the start rule the first '/' is the end
   rule's "/3", past the ',' that closes the start rule.
   */
  lemma {:induction false} CetHours(s: string)
    requires s == "CET-1CEST,M3.5.0,M10.5.0/3"
    ensures HourAsWritten(s, 15) == 3 && Hour(s, 15) == 2
    ensures HourAsWritten(s, 23) == 3 && Hour(s, 23) == 3
  {
    assert FindChar(s, '/', 24) == Some(24);
    assert FindChar(s, '/', 23) == Some(24);
    assert FindChar(s, '/', 22) == Some(24);
    assert FindChar(s, '/', 21) == Some(24);
    assert FindChar(s, '/', 20) == Some(24);
    assert FindChar(s, '/', 19) == Some(24);
    assert FindChar(s, '/', 18) == Some(24);
    assert FindChar(s, '/', 17) == Some(24);
    assert FindChar(s, '/', 16) == Some(24);
    assert FindChar(s, '/', 15) == Some(24);
    assert FindChar(s, ',', 15) == Some(16);
    assert ',' !in s[23..];
    AtoiOfDigit(s, 25);
  }

  /** The window of Central European time in year y: 02:00 (as written 03:00) and 03:00 on the last Sundays. */
  lemma {:induction false} CetWindow(s: string, y: int, asWritten: bool)
    requires s == CENTRAL_EUROPE && 1970 <= y < TWO32
    ensures WindowOf(s, Dst(HOUR, 2 * HOUR, 10, 17), y, asWritten)
         == Some(Window(3, SundayOfYear(y, 3, 5), if asWritten then 3 else 2, 10, SundayOfYear(y, 10, 5), 3))
  {
    CetRules(s);
    CetHours(s);
    TransitionOfRule(s, 10, y, asWritten, RuleFields(3, 5, 0, 15), if asWritten then 3 else 2);
    TransitionOfRule(s, 17, y, asWritten, RuleFields(10, 5, 0, 23), 3);
    WindowOfSundays(y, 3, 5, if asWritten then 3 else 2, 10, 5, 3);
  }

  /**
   EU summer time of year y in UTC seconds: from 01:00 UTC on the last Sunday of
   March up to 01:00 UTC on the last Sunday of October.
   */
  predicate EuSummer(y: int, t: int)
    requires 1970 <= y < TWO32
  {
    var start := Civil.DaysFromCivil(Civil.Date(y, 3, Weekdays.NthWeekdayOfMonth(y, 3, 5, 0)));
    var end := Civil.DaysFromCivil(Civil.Date(y, 10, Weekdays.NthWeekdayOfMonth(y, 10, 5, 0)));
    start * SECONDS_PER_DAY + HOUR <= t < end * SECONDS_PER_DAY + HOUR
  }

  /** The last Sundays of March and October fall on days 83..90 and 297..304 of the year. */
  lemma {:induction false} EuSundays(y: int)
    requires 1970 <= y < TWO32
    ensures 83 <= SundayOfYear(y, 3, 5) <= 90 && 297 <= SundayOfYear(y, 10, 5) <= 304
  {
    Weekdays.LastSundayOf31(y, 3);
    Weekdays.LastSundayOf31(y, 10);
  }

  /** Corrected, CalculateOffset of Central European time is daylight time (+2 h) exactly in the EU summer. */
  lemma {:induction false} CetOffset(t: u32)
    ensures CalculateOffset(CENTRAL_EUROPE, t) == Some(if EuSummer(YearAndDay(t).0, t) then 2 * HOUR else HOUR)
  {
    var (y, doy) := YearAndDay(t);
    var sod := t % SECONDS_PER_DAY;
    CetWindows(t);
    EuSundays(y);
    var w := Window(3, SundayOfYear(y, 3, 5), 2, 10, SundayOfYear(y, 10, 5), 3);
    InDstIsInterval(w, doy, sod, HOUR, 2 * HOUR);
    assert t == (Civil.DaysBeforeYear(y) + doy) * SECONDS_PER_DAY + sod;
  }

  /**
   As written, the start rule takes the end rule's hour 3, so the hour from 01:00
   to 02:00 UTC on the last Sunday of March stays standard time.
   */
  lemma {:induction false} CetStartHourSpill(t: u32)
    requires YearAndDay(t).1 == SundayOfYear(YearAndDay(t).0, 3, 5)
    requires HOUR <= t % SECONDS_PER_DAY < 2 * HOUR
    ensures CalculateOffsetAsWritten(CENTRAL_EUROPE, t) == Some(HOUR)
    ensures CalculateOffset(CENTRAL_EUROPE, t) == Some(2 * HOUR)
  {
    var (y, doy) := YearAndDay(t);
    var sod := t % SECONDS_PER_DAY;
    CetWindows(t);
    EuSundays(y);
    var wa := Window(3, SundayOfYear(y, 3, 5), 3, 10, SundayOfYear(y, 10, 5), 3);
    var wc := Window(3, SundayOfYear(y, 3, 5), 2, 10, SundayOfYear(y, 10, 5), 3);
    AsWrittenAgrees(wa, doy, sod, HOUR, 2 * HOUR);
    assert !InDst(wa, doy, sod, HOUR, 2 * HOUR);
    assert InDst(wc, doy, sod, HOUR, 2 * HOUR);
  }

  /** Outside that hour the code as written gives the corrected offset. */
  lemma {:induction false} CetAgreesElsewhere(t: u32)
    requires !(YearAndDay(t).1 == SundayOfYear(YearAndDay(t).0, 3, 5) && HOUR <= t % SECONDS_PER_DAY < 2 * HOUR)
    ensures CalculateOffsetAsWritten(CENTRAL_EUROPE, t) == CalculateOffset(CENTRAL_EUROPE, t)
  {
    var (y, doy) := YearAndDay(t);
    var sod := t % SECONDS_PER_DAY;
    CetWindows(t);
    EuSundays(y);
    var wa := Window(3, SundayOfYear(y, 3, 5), 3, 10, SundayOfYear(y, 10, 5), 3);
    var wc := Window(3, SundayOfYear(y, 3, 5), 2, 10, SundayOfYear(y, 10, 5), 3);
    AsWrittenAgrees(wa, doy, sod, HOUR, 2 * HOUR);
    assert InDst(wa, doy, sod, HOUR, 2 * HOUR) == InDst(wc, doy, sod, HOUR, 2 * HOUR);
  }

  /** CalculateOffset of Central European time, as written and corrected, in terms of the two windows of the UTC year. */
  lemma {:induction false} CetWindows(t: u32)
    ensures var (y, doy) := YearAndDay(t);
      var sod := t % SECONDS_PER_DAY;
      var wa := Window(3, SundayOfYear(y, 3, 5), 3, 10, SundayOfYear(y, 10, 5), 3);
      var wc := Window(3, SundayOfYear(y, 3, 5), 2, 10, SundayOfYear(y, 10, 5), 3);
      && CalculateOffsetAsWritten(CENTRAL_EUROPE, t) == Some(if InDstAsWritten(wa, doy, sod, HOUR, 2 * HOUR) then 2 * HOUR else HOUR)
      && CalculateOffset(CENTRAL_EUROPE, t) == Some(if InDst(wc, doy, sod, HOUR, 2 * HOUR) then 2 * HOUR else HOUR)
  {
    var (y, doy) := YearAndDay(t);
    CetZone(CENTRAL_EUROPE);
    CetWindow(CENTRAL_EUROPE, y, true);
    CetWindow(CENTRAL_EUROPE, y, false);
    var wa := Window(3, SundayOfYear(y, 3, 5), 3, 10, SundayOfYear(y, 10, 5), 3);
    var wc := Window(3, SundayOfYear(y, 3, 5), 2, 10, SundayOfYear(y, 10, 5), 3);
    OffsetOfWindow(CENTRAL_EUROPE, t, true, HOUR, 2 * HOUR, wa);
    OffsetOfWindow(CENTRAL_EUROPE, t, false, HOUR, 2 * HOUR, wc);
  }

  // ---------------------------------------------------------------------------
  // Zones without daylight saving time, and names through GetTimezoneOffset
  // ---------------------------------------------------------------------------

  /** A three-letter name and a one-digit offset ("UTC0", "MST7") is that offset all year. */
  lemma {:induction false} FixedZone(s: string, t: u32)
    requires |s| == 4 && IsUpper(s[0]) && IsUpper(s[1]) && IsUpper(s[2]) && IsDigit(s[3])
    ensures CalculateOffset(s, t) == Some(-(DigitValue(s[3]) as int) * HOUR)
  {
    assert SkipStdName(s, 3) == 3;
    assert SkipStdName(s, 2) == 3;
    assert SkipStdName(s, 1) == 3;
    assert SkipStdName(s, 0) == 3;
    OneDigitOffset(s, 3);
    assert ParseZone(s) == NoDst(-(DigitValue(s[3]) as int) * HOUR);
  }

  /** A name no entry contains and that does not look like a TZ string is UTC. */
  lemma {:induction false} UnknownNameIsUtc(tz: string, t: u32)
    requires forall k | 0 <= k < |ZoneTable| :: !Contains(ZoneTable[k].0, tz)
    requires !LooksPosix(tz)
    ensures GetTimezoneOffset(tz, t) == Some(0)
  {
    GetPosixTzSpec(tz);
    var s := "UTC0";
    FixedZone(s, t);
  }

  /** "America/Chicago" follows the US rules at 6 hours west. */
  lemma {:induction false} ChicagoOffset(t: u32)
    ensures GetTimezoneOffset("America/Chicago", t) == Some(if UsSummer(YearAndDay(t).0, 6, t) then -5 * HOUR else -6 * HOUR)
  {
    ChicagoZone();
    CentralOffset(t);
  }
}
