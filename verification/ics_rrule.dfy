/**
 The RRULE value parser of the ICS stream parser (RFC 5545 section 3.3.10, the
 subset the firmware understands): FREQ, INTERVAL, COUNT, UNTIL (date part only),
 BYDAY, BYMONTH, BYMONTHDAY, BYSETPOS and WKST, read left to right from a C string.

 A position is an index into the value; `Text.At` gives NUL past its end, so every
 "`*pos`" test of the C code is an `At` test here. Two inputs do not finish in C:
 a BYDAY item that is neither a number, a day name nor a comma makes the BYDAY loop
 spin forever (`Hangs`), and an UNTIL month of 14 or more reads past the 12-entry
 month table (`OutOfBounds`).
 */
module IcsRRule {
  import opened Wrappers
  import opened Machine
  import opened Text
  import Civil
  import Timestamp
  import Scan

  const NUL: char := 0 as char

  // ---------------------------------------------------------------------------
  // Data model
  // ---------------------------------------------------------------------------

  datatype Freq = NoFreq | Daily | Weekly | Monthly | Yearly

  /** A BYDAY item: the week is stored in a `signed char`; 0 means every week. */
  datatype ByDay = ByDay(week: int, day: int)

  /**
   A parsed rule. The two bitmasks of the C struct are sets: `byDayMask` holds the
   weekdays (Sunday = 0) given without a week number, `byMonth` the months 1..12
   (bit month - 1). The fixed arrays are sequences of their used entries.
   */
  datatype RRule = RRule(
    freq: Freq,
    interval: u32,
    until: u32,
    count: int,
    byDayMask: set<int>,
    byDay: seq<ByDay>,
    byMonth: set<int>,
    byMonthDays: seq<int>,
    bySetPos: int,
    wkst: int)

  const MAX_BYDAY: nat := 8
  const MAX_BYMONTHDAY: nat := 8

  /** The rule before any part is read: interval 1, no COUNT, no UNTIL, weeks starting on Monday. */
  const DefaultRule: RRule := RRule(NoFreq, 1, 0, -1, {}, [], {}, [], 0, 1)

  /** The result of ParseRRule: a rule, or one of the two ways the C code does not finish. */
  datatype Outcome = Parsed(rule: RRule) | Hangs(at: nat) | OutOfBounds(at: nat)

  /** What every rule the parser builds satisfies. */
  predicate Wf(r: RRule) {
    && r.interval != 0
    && (forall d | d in r.byDayMask :: 0 <= d < 7)
    && |r.byDay| <= MAX_BYDAY
    && (forall i | 0 <= i < |r.byDay| :: 0 <= r.byDay[i].day < 7 && -128 <= r.byDay[i].week < 128)
    && (forall m | m in r.byMonth :: 1 <= m <= 12)
    && |r.byMonthDays| <= MAX_BYMONTHDAY
    && (forall i | 0 <= i < |r.byMonthDays| :: -128 <= r.byMonthDays[i] < 128)
    && 0 <= r.wkst < 7
  }

  // ---------------------------------------------------------------------------
  // Tokens
  // ---------------------------------------------------------------------------

  /** The two-letter day names, Sunday first. */
  const DayNames: seq<string> := ["SU", "MO", "TU", "WE", "TH", "FR", "SA"]

  /** ParseDayAbbrev: the weekday whose two-letter name starts at p, or -1. */
  function ParseDayAbbrev(s: string, p: nat): (r: int)
    ensures -1 <= r < 7
    ensures r >= 0 ==> HasAt(s, p, DayNames[r])
    ensures r == -1 <==> forall d | 0 <= d < 7 :: !HasAt(s, p, DayNames[d])
  {
    if HasAt(s, p, "SU") then 0
    else if HasAt(s, p, "MO") then 1
    else if HasAt(s, p, "TU") then 2
    else if HasAt(s, p, "WE") then 3
    else if HasAt(s, p, "TH") then 4
    else if HasAt(s, p, "FR") then 5
    else if HasAt(s, p, "SA") then 6
    else -1
  }

  /** A day name followed by anything reads back as its weekday. */
  lemma {:induction false} DayAbbrevRoundTrip(d: nat, rest: string)
    requires d < 7
    ensures ParseDayAbbrev(DayNames[d] + rest, 0) == d
  {
    var s := DayNames[d] + rest;
    assert HasAt(s, 0, DayNames[d]);
  }

  /**
   ParseInt: an optional sign, then the digits that follow; the position moves past
   what was read. The value is unbounded (C `int` overflow is not modelled).
   */
  function ParseInt(s: string, p: nat): (r: (int, nat))
    requires p <= |s|
    ensures p <= r.1 <= |s|
    ensures r.1 == p <==> !(At(s, p) == '-' || At(s, p) == '+' || IsDigit(At(s, p)))
    ensures !IsDigit(At(s, r.1))
  {
    var neg := At(s, p) == '-';
    var q := if At(s, p) == '-' || At(s, p) == '+' then p + 1 else p;
    var n := DigitRun(s[q..]);
    assert s[q..][..n] == s[q..q + n];
    assert n < |s[q..]| ==> s[q..][n] == s[q + n];
    var v: int := DecimalValue(s[q..q + n]);
    (if neg then -v else v, q + n)
  }

  /** `%d` output followed by a non-digit reads back as the same number, and the position lands after it. */
  lemma {:induction false} ParseIntRoundTrip(i: int, rest: string)
    requires rest == [] || !IsDigit(rest[0])
    ensures var t := IntToString(i);
      ParseInt(t + rest, 0) == (i, |t|)
  {
    var t := IntToString(i);
    var s := t + rest;
    var u := NatToString(if i >= 0 then i else -i);
    var q := if i >= 0 then 0 else 1;
    assert s[q..] == u + rest;
    assert s[q..q + |u|] == u;
    DigitRunOfDigits(u, rest);
    assert IsDigit(u[0]);
    if i >= 0 {
      assert At(s, 0) == u[0];
    }
  }

  /** The position after the current parameter: past the next ';', or at the end. */
  function SkipParam(s: string, p: nat): (r: nat)
    requires p <= |s|
    ensures p <= r <= |s|
    ensures At(s, p) != NUL ==> p < r
    ensures forall i | p <= i < r - 1 :: s[i] != ';' && s[i] != NUL
    decreases |s| - p
  {
    if At(s, p) == NUL then p
    else if s[p] == ';' then p + 1
    else SkipParam(s, p + 1)
  }

  // ---------------------------------------------------------------------------
  // UNTIL
  // ---------------------------------------------------------------------------

  /** UNTIL: the end (next midnight) of the given date, through DateToTimestampHelper. */
  function UntilValue(year: int, month: int, day: int): (r: u32)
    requires month <= 13
  {
    U32(Timestamp.DateToTimestampHelper(year, month, day) + Timestamp.SECONDS_PER_DAY)
  }

  /** For a real date since 1970, UNTIL is the first second of the following day. */
  lemma {:induction false} UntilIsEndOfDay(d: Civil.Date)
    requires Civil.ValidDate(d) && d.year >= 1970
    ensures UntilValue(d.year, d.month, d.day) == U32((Civil.DaysFromCivil(d) + 1) * Timestamp.SECONDS_PER_DAY)
  {
    Timestamp.HelperIsCivil(d);
    var n := Civil.DaysFromCivil(d) * Timestamp.SECONDS_PER_DAY;
    U32Add(n, Timestamp.SECONDS_PER_DAY);
  }

  // ---------------------------------------------------------------------------
  // BYDAY
  // ---------------------------------------------------------------------------

  /** The optional week number of a BYDAY item: read when a '-' or a digit comes first, else 0. */
  function WeekNumber(s: string, p: nat): (r: (int, nat))
    requires p <= |s|
    ensures p <= r.1 <= |s|
  {
    if At(s, p) == '-' || IsDigit(At(s, p)) then ParseInt(s, p) else (0, p)
  }

  /**
   One pass of the BYDAY loop body: optional week number, a day name, an optional
   comma. A day name given without a week (or with week 0) joins the weekday set,
   one with a week only the entry list; only those two parts of the rule change.
   */
  function ByDayStep(s: string, p: nat, rule: RRule): (r: (nat, RRule))
    requires p <= |s|
    ensures p <= r.0 <= |s|
    ensures r.1 == rule.(byDayMask := r.1.byDayMask, byDay := r.1.byDay)
    ensures rule.byDayMask <= r.1.byDayMask && rule.byDay <= r.1.byDay
    ensures var (week, q) := WeekNumber(s, p);
            var day := ParseDayAbbrev(s, q);
            && (day >= 0 && week == 0 ==> r.1.byDayMask == rule.byDayMask + {day})
            && (day >= 0 && week != 0 ==> r.1.byDayMask == rule.byDayMask)
            && (day >= 0 && |rule.byDay| < MAX_BYDAY ==> r.1.byDay == rule.byDay + [ByDay(I8(week), day)])
            && (day < 0 ==> r.1 == rule)
  {
    var (week, q) := WeekNumber(s, p);
    var day := ParseDayAbbrev(s, q);
    var (q2, rule2) :=
      if day >= 0 then
        var mask := if week == 0 then rule.byDayMask + {day} else rule.byDayMask;
        var entries := if |rule.byDay| < MAX_BYDAY then rule.byDay + [ByDay(I8(week), day)] else rule.byDay;
        (q + 2, rule.(byDayMask := mask, byDay := entries))
      else (q, rule);
    (if At(s, q2) == ',' then q2 + 1 else q2, rule2)
  }

  /** A position where the BYDAY loop body reads nothing: no number, no day name, no comma. */
  predicate Stuck(s: string, p: nat) {
    && At(s, p) != '-' && !IsDigit(At(s, p))
    && ParseDayAbbrev(s, p) < 0
    && At(s, p) != ','
  }

  /** The loop body fails to move exactly at a stuck position, and then it changes nothing either. */
  lemma {:induction false} ByDayStepStalls(s: string, p: nat, rule: RRule)
    requires p <= |s|
    ensures ByDayStep(s, p, rule).0 == p <==> Stuck(s, p)
    ensures Stuck(s, p) ==> ByDayStep(s, p, rule) == (p, rule)
  {
  }

  /** ByDayStep keeps a rule well formed. */
  lemma {:induction false} ByDayStepWf(s: string, p: nat, rule: RRule)
    requires p <= |s| && Wf(rule)
    ensures Wf(ByDayStep(s, p, rule).1)
  {
    var (week, q) := WeekNumber(s, p);
    var day := ParseDayAbbrev(s, q);
    var r := ByDayStep(s, p, rule).1;
    if day >= 0 && |rule.byDay| < MAX_BYDAY {
      assert r.byDay == rule.byDay + [ByDay(I8(week), day)];
      forall i | 0 <= i < |r.byDay| ensures 0 <= r.byDay[i].day < 7 && -128 <= r.byDay[i].week < 128 {
        if i < |rule.byDay| {
          assert r.byDay[i] == rule.byDay[i];
        }
      }
    }
  }

  /**
   The BYDAY list, up to the ';' or the end of the value: either the rule with the
   list applied and the position of the terminator, or the stuck position at which
   the C loop spins forever.
   */
  function ByDayList(s: string, p: nat, rule: RRule): (r: Result<(RRule, nat), nat>)
    requires p <= |s| && Wf(rule)
    ensures r.Success? ==> p <= r.value.1 <= |s| && Wf(r.value.0)
    ensures r.Success? ==> At(s, r.value.1) == NUL || At(s, r.value.1) == ';'
    ensures r.Success? ==> r.value.0 == rule.(byDayMask := r.value.0.byDayMask, byDay := r.value.0.byDay)
    ensures r.Success? ==> rule.byDayMask <= r.value.0.byDayMask && rule.byDay <= r.value.0.byDay
    ensures r.Failure? ==> p <= r.error <= |s| && Stuck(s, r.error)
    decreases |s| - p
  {
    if At(s, p) == NUL || At(s, p) == ';' then Success((rule, p))
    else
      var (q, rule2) := ByDayStep(s, p, rule);
      ByDayStepStalls(s, p, rule);
      ByDayStepWf(s, p, rule);
      if q == p then Failure(p) else ByDayList(s, q, rule2)
  }

  /**
   The BYDAY list as evidently intended: a character the loop body cannot read
   (the '+' of `+1MO`, say) is skipped instead of read again for ever, so the
   list always ends at the ';' or the end of the value.
   */
  function ByDayListCorrected(s: string, p: nat, rule: RRule): (r: (RRule, nat))
    requires p <= |s| && Wf(rule)
    ensures p <= r.1 <= |s| && Wf(r.0)
    ensures At(s, r.1) == NUL || At(s, r.1) == ';'
    decreases |s| - p
  {
    if At(s, p) == NUL || At(s, p) == ';' then (rule, p)
    else
      var (q, rule2) := ByDayStep(s, p, rule);
      ByDayStepStalls(s, p, rule);
      ByDayStepWf(s, p, rule);
      if q == p then ByDayListCorrected(s, p + 1, rule) else ByDayListCorrected(s, q, rule2)
  }

  /** On every list the code does finish, the corrected list reads the same rule and stops at the same place. */
  lemma {:induction false} ByDayListCorrectedAgrees(s: string, p: nat, rule: RRule)
    requires p <= |s| && Wf(rule)
    requires ByDayList(s, p, rule).Success?
    ensures ByDayListCorrected(s, p, rule) == ByDayList(s, p, rule).value
    decreases |s| - p
  {
    if At(s, p) != NUL && At(s, p) != ';' {
      var (q, rule2) := ByDayStep(s, p, rule);
      ByDayStepStalls(s, p, rule);
      ByDayStepWf(s, p, rule);
      ByDayListCorrectedAgrees(s, q, rule2);
    }
  }

  // ---------------------------------------------------------------------------
  // BYMONTH and BYMONTHDAY
  // ---------------------------------------------------------------------------

  /**
   The BYMONTH list: numbers 1..12 are added to the month set, others are ignored;
   the loop goes on after a comma and stops at anything else.
   */
  function ByMonthList(s: string, p: nat, rule: RRule): (r: (RRule, nat))
    requires p <= |s| && Wf(rule)
    ensures p <= r.1 <= |s| && Wf(r.0)
    ensures r.0.byMonth >= rule.byMonth
    ensures forall m | m in r.0.byMonth - rule.byMonth :: 1 <= m <= 12
    ensures r.0 == rule.(byMonth := r.0.byMonth)
    decreases |s| - p
  {
    if At(s, p) == NUL || At(s, p) == ';' then (rule, p)
    else
      var (month, q) := ParseInt(s, p);
      var rule2 := if 1 <= month <= 12 then rule.(byMonth := rule.byMonth + {month}) else rule;
      if At(s, q) == ',' then ByMonthList(s, q + 1, rule2) else (rule2, q)
  }

  /**
   The BYMONTHDAY list: non-zero numbers are appended, as `signed char`, while fewer
   than eight are stored; the loop goes on after a comma and stops at anything else.
   */
  function ByMonthDayList(s: string, p: nat, rule: RRule): (r: (RRule, nat))
    requires p <= |s| && Wf(rule)
    ensures p <= r.1 <= |s| && Wf(r.0)
    ensures rule.byMonthDays <= r.0.byMonthDays
    ensures r.0 == rule.(byMonthDays := r.0.byMonthDays)
    decreases |s| - p
  {
    if At(s, p) == NUL || At(s, p) == ';' then (rule, p)
    else
      var (day, q) := ParseInt(s, p);
      var rule2 :=
        if day != 0 && |rule.byMonthDays| < MAX_BYMONTHDAY then
          rule.(byMonthDays := rule.byMonthDays + [I8(day)])
        else rule;
      assert Wf(rule2) by {
        forall i | 0 <= i < |rule2.byMonthDays| ensures -128 <= rule2.byMonthDays[i] < 128 {
          if i < |rule.byMonthDays| {
            assert rule2.byMonthDays[i] == rule.byMonthDays[i];
          }
        }
      }
      if At(s, q) == ',' then ByMonthDayList(s, q + 1, rule2) else (rule2, q)
  }

  // ---------------------------------------------------------------------------
  // The parameter loop
  // ---------------------------------------------------------------------------

  /** FREQ=: the frequency named at p, or the previous one when the name is not known. */
  function FreqAt(s: string, p: nat, current: Freq): Freq {
    if HasAt(s, p, "DAILY") then Daily
    else if HasAt(s, p, "WEEKLY") then Weekly
    else if HasAt(s, p, "MONTHLY") then Monthly
    else if HasAt(s, p, "YEARLY") then Yearly
    else current
  }

  /** The parameter names the loop knows, tried in this order; `OtherKey` for any other text. */
  datatype ParamKey = FreqKey | IntervalKey | CountKey | UntilKey | ByDayKey
                    | ByMonthKey | ByMonthDayKey | BySetPosKey | WkstKey | OtherKey

  /** The first known parameter name (with its '=') found at p. */
  function ParamKeyAt(s: string, p: nat): ParamKey {
    if HasAt(s, p, "FREQ=") then FreqKey
    else if HasAt(s, p, "INTERVAL=") then IntervalKey
    else if HasAt(s, p, "COUNT=") then CountKey
    else if HasAt(s, p, "UNTIL=") then UntilKey
    else if HasAt(s, p, "BYDAY=") then ByDayKey
    else if HasAt(s, p, "BYMONTH=") then ByMonthKey
    else if HasAt(s, p, "BYMONTHDAY=") then ByMonthDayKey
    else if HasAt(s, p, "BYSETPOS=") then BySetPosKey
    else if HasAt(s, p, "WKST=") then WkstKey
    else OtherKey
  }

  /**
   One pass of the parameter loop at a position that is not the end: the rule with
   the parameter at p applied and the position of the next pass, or how the pass
   fails to finish.
   */
  function ParamStep(s: string, p: nat, rule: RRule): (r: Result<(RRule, nat), Outcome>)
    requires p < |s| && At(s, p) != NUL && Wf(rule)
    ensures r.Success? ==> p < r.value.1 <= |s| && Wf(r.value.0)
    ensures r.Failure? ==> r.error.Hangs? || r.error.OutOfBounds?
    ensures r.Failure? && r.error.Hangs? ==> p <= r.error.at <= |s| && Stuck(s, r.error.at)
    ensures r.Failure? && r.error.OutOfBounds? ==> p < r.error.at <= |s|
  {
    match ParamKeyAt(s, p)
    case FreqKey =>
      Success((rule.(freq := FreqAt(s, p + 5, rule.freq)), SkipParam(s, p + 5)))
    case IntervalKey =>
      var (v, q) := ParseInt(s, p + 9);
      Success((rule.(interval := if U32(v) == 0 then 1 else U32(v)), q))
    case CountKey =>
      var (v, q) := ParseInt(s, p + 6);
      Success((rule.(count := v), q))
    case UntilKey =>
      (match Scan.ScanDate(s, p + 6)
       case None => Success((rule, SkipParam(s, p + 6)))
       case Some((year, month, day)) =>
         if month >= 14 then Failure(OutOfBounds(p + 6))
         else Success((rule.(until := UntilValue(year, month, day)), SkipParam(s, p + 6))))
    case ByDayKey =>
      (match ByDayList(s, p + 6, rule)
       case Failure(at) => Failure(Hangs(at))
       case Success(next) => Success(next))
    case ByMonthKey =>
      Success(ByMonthList(s, p + 8, rule))
    case ByMonthDayKey =>
      Success(ByMonthDayList(s, p + 11, rule))
    case BySetPosKey =>
      var (v, q) := ParseInt(s, p + 9);
      Success((rule.(bySetPos := v), q))
    case WkstKey =>
      var day := ParseDayAbbrev(s, p + 5);
      if day >= 0 then Success((rule.(wkst := day), p + 7))
      else Success((rule, p + 5))
    case OtherKey =>
      Success((rule, SkipParam(s, p)))
  }

  /** The parameters from position p on, applied to `rule` in order; a later one overrides an earlier one. */
  function Params(s: string, p: nat, rule: RRule): (r: Outcome)
    requires p <= |s| && Wf(rule)
    ensures r.Parsed? ==> Wf(r.rule)
    ensures r.Hangs? ==> p <= r.at <= |s| && Stuck(s, r.at)
    ensures r.OutOfBounds? ==> p < r.at <= |s|
    decreases |s| - p
  {
    if At(s, p) == NUL then Parsed(rule)
    else
      match ParamStep(s, p, rule)
      case Failure(outcome) => outcome
      case Success((rule2, q)) => Params(s, q, rule2)
  }

  /** ParseRRule: the rule read from an RRULE value, starting from the defaults. */
  function ParseRRule(value: string): (r: Outcome)
    ensures r.Parsed? ==> Wf(r.rule)
    ensures r.Hangs? ==> Stuck(value, r.at)
  {
    Params(value, 0, DefaultRule)
  }

  /** ParseRRule's boolean result: the value parsed and named a known frequency. */
  predicate Accepted(r: Outcome) {
    r.Parsed? && r.rule.freq != NoFreq
  }

  // ---------------------------------------------------------------------------
  // Behaviour on whole values
  // ---------------------------------------------------------------------------

  /**
   A parameter "INTERVAL=" at p stores the number read after the '=' as `unsigned`,
   with 0 read as 1: -1 becomes 2^32 - 1. The next parameter starts just after the digits.
   */
  lemma {:induction false} IntervalParam(s: string, p: nat, rule: RRule, v: int, q: nat)
    requires Wf(rule) && HasAt(s, p, "INTERVAL=") && ParseInt(s, p + 9) == (v, q)
    ensures At(s, p) == 'I'
    ensures ParamStep(s, p, rule) == Success((rule.(interval := if U32(v) == 0 then 1 else U32(v)), q))
  {
    HasAtFirst(s, p, "INTERVAL=");
    NotHasAt(s, p, "FREQ=");
    assert ParamKeyAt(s, p) == IntervalKey;
  }

  /**
   A BYDAY list whose first item is stuck (for instance `BYDAY=+1MO` or `BYDAY=XX`)
   makes the parameter loop spin: the pass never finishes.
   */
  lemma {:induction false} ByDayHangs(s: string, p: nat, rule: RRule)
    requires p < |s| && Wf(rule) && HasAt(s, p, "BYDAY=")
    requires At(s, p + 6) != NUL && At(s, p + 6) != ';' && Stuck(s, p + 6)
    ensures ParamStep(s, p, rule) == Failure(Hangs(p + 6))
  {
    HasAtFirst(s, p, "BYDAY=");
    NotHasAt(s, p, "FREQ=");
    NotHasAt(s, p, "INTERVAL=");
    NotHasAt(s, p, "COUNT=");
    NotHasAt(s, p, "UNTIL=");
    assert ParamKeyAt(s, p) == ByDayKey;
    ByDayStepStalls(s, p + 6, rule);
  }

  /** A day name at p reads as its weekday. */
  lemma {:induction false} DayNameAt(s: string, p: nat, d: nat)
    requires d < 7 && HasAt(s, p, DayNames[d])
    ensures ParseDayAbbrev(s, p) == d
  {
    var r := ParseDayAbbrev(s, p);
    assert DayNames[r] == s[p..p + 2] == DayNames[d];
    assert DayNames[r][0] == DayNames[d][0] && DayNames[r][1] == DayNames[d][1];
  }

  /** A day name without a week number at p, then a comma or the end, is one step of the BYDAY loop. */
  lemma {:induction false} PlainDayStep(s: string, p: nat, d: nat, rule: RRule)
    requires d < 7 && HasAt(s, p, DayNames[d]) && |rule.byDay| < MAX_BYDAY
    requires At(s, p + 2) == ',' || At(s, p + 2) == NUL
    ensures ByDayStep(s, p, rule)
            == (if At(s, p + 2) == ',' then p + 3 else p + 2,
                rule.(byDayMask := rule.byDayMask + {d}, byDay := rule.byDay + [ByDay(0, d)]))
  {
    HasAtFirst(s, p, DayNames[d]);
    assert WeekNumber(s, p) == (0, p);
    DayNameAt(s, p, d);
    assert I8(0) == 0;
  }

  /** A day name after a non-zero week number, at the end of the value, is listed with its week and stays out of the set. */
  lemma {:induction false} NumberedDayStep(s: string, p: nat, d: nat, rule: RRule)
    requires p <= |s| && d < 7 && |rule.byDay| < MAX_BYDAY
    requires WeekNumber(s, p).0 != 0 && HasAt(s, WeekNumber(s, p).1, DayNames[d])
    requires At(s, WeekNumber(s, p).1 + 2) == NUL
    ensures ByDayStep(s, p, rule)
            == (WeekNumber(s, p).1 + 2, rule.(byDay := rule.byDay + [ByDay(I8(WeekNumber(s, p).0), d)]))
  {
    DayNameAt(s, WeekNumber(s, p).1, d);
  }

  /**
   One BYMONTHDAY item: a number read as 0 is skipped, and any other is stored
   (as `signed char`) after the days already stored, while there is room.
   */
  lemma {:induction false} ByMonthDayFirst(s: string, p: nat, rule: RRule)
    requires p <= |s| && Wf(rule) && At(s, p) != NUL && At(s, p) != ';'
    ensures var (v, q) := ParseInt(s, p);
            var r := ByMonthDayList(s, p, rule).0;
            && (v == 0 ==> r == (if At(s, q) == ',' then ByMonthDayList(s, q + 1, rule).0 else rule))
            && (v != 0 && |rule.byMonthDays| < MAX_BYMONTHDAY ==>
                  |rule.byMonthDays| < |r.byMonthDays| && r.byMonthDays[|rule.byMonthDays|] == I8(v))
            && (-128 <= v < 128 ==> I8(v) == v)
  {
    var (v, q) := ParseInt(s, p);
    if v != 0 && |rule.byMonthDays| < MAX_BYMONTHDAY {
      var rule2 := rule.(byMonthDays := rule.byMonthDays + [I8(v)]);
      assert Wf(rule2) by {
        forall i | 0 <= i < |rule2.byMonthDays| ensures -128 <= rule2.byMonthDays[i] < 128 {
          if i < |rule.byMonthDays| {
            assert rule2.byMonthDays[i] == rule.byMonthDays[i];
          }
        }
      }
      var r := ByMonthDayList(s, p, rule).0;
      assert rule2.byMonthDays <= r.byMonthDays;
      assert r.byMonthDays[|rule.byMonthDays|] == rule2.byMonthDays[|rule.byMonthDays|];
    }
  }

  /**
   The stored days are `signed char`: "BYMONTHDAY=256" reads 256, which is not 0,
   and stores it as 0.
   */
  lemma {:induction false} MonthDay256StoresZero()
    ensures ParseRRule("BYMONTHDAY=256") == Parsed(DefaultRule.(byMonthDays := [0]))
  {
    MonthDay256Reads();
  }

  /** The first pass over "BYMONTHDAY=256" reads the key and then 256, ending at the end of the value. */
  lemma {:induction false} MonthDay256Reads()
    ensures ParamKeyAt("BYMONTHDAY=256", 0) == ByMonthDayKey
    ensures ParseInt("BYMONTHDAY=256", 11) == (256, 14)
  {
    var s := "BYMONTHDAY=256";
    NotHasAt(s, 0, "FREQ=");
    NotHasAt(s, 0, "INTERVAL=");
    NotHasAt(s, 0, "COUNT=");
    NotHasAt(s, 0, "UNTIL=");
    assert !HasAt(s, 0, "BYDAY=") by {
      assert s[0..6][2] == 'M';
    }
    assert !HasAt(s, 0, "BYMONTH=") by {
      assert s[0..8][7] == 'D';
    }
    assert HasAt(s, 0, "BYMONTHDAY=");
    assert ParamKeyAt(s, 0) == ByMonthDayKey;
    assert s[11..] == "256" + [] && s[11..14] == "256";
    DigitRunOfDigits("256", []);
    assert DecimalValue("256") == 256 by {
      assert "256"[..2] == "25" && "25"[..1] == "2" && "2"[..0] == [];
    }
    assert ParseInt(s, 11) == (256, 14);
  }

  /** The FREQ value at p names one of the four frequencies the parser knows. */
  predicate KnownFreqAt(s: string, p: nat) {
    FreqAt(s, p, NoFreq) != NoFreq
  }

  /** One pass changes the frequency only through a "FREQ=" parameter, and only to a known one. */
  lemma {:induction false} ParamStepFreq(s: string, p: nat, rule: RRule)
    requires p < |s| && At(s, p) != NUL && Wf(rule)
    ensures var r := ParamStep(s, p, rule);
            r.Success? ==> r.value.0.freq == (if ParamKeyAt(s, p) == FreqKey then FreqAt(s, p + 5, rule.freq) else rule.freq)
  {
  }

  /**
   The parameter loop keeps a known frequency known, and ends with a known one
   it did not start with only when some "FREQ=" in the value names a known one.
   */
  lemma {:induction false} ParamsFreq(s: string, p: nat, rule: RRule)
    requires p <= |s| && Wf(rule)
    ensures var r := Params(s, p, rule);
            r.Parsed? && rule.freq != NoFreq ==> r.rule.freq != NoFreq
    ensures var r := Params(s, p, rule);
            r.Parsed? && r.rule.freq != NoFreq && rule.freq == NoFreq ==>
              exists q | p <= q <= |s| :: HasAt(s, q, "FREQ=") && KnownFreqAt(s, q + 5)
    decreases |s| - p
  {
    if At(s, p) != NUL {
      ParamStepFreq(s, p, rule);
      match ParamStep(s, p, rule)
      case Failure(_) =>
      case Success((rule2, q)) =>
        ParamsFreq(s, q, rule2);
        if ParamKeyAt(s, p) == FreqKey && rule.freq == NoFreq && rule2.freq != NoFreq {
          assert HasAt(s, p, "FREQ=") && KnownFreqAt(s, p + 5);
        }
    }
  }

  /**
   ParseRRule's boolean: a value that starts with FREQ=DAILY, WEEKLY, MONTHLY or
   YEARLY and parses is accepted, and a value is accepted only when some "FREQ="
   in it names one of the four; any other frequency name is not accepted.
   */
  lemma {:induction false} AcceptedIsKnownFreq(v: string)
    ensures ParseRRule(v).Parsed? && HasAt(v, 0, "FREQ=") && KnownFreqAt(v, 5) ==> Accepted(ParseRRule(v))
    ensures Accepted(ParseRRule(v)) ==> exists q | 0 <= q <= |v| :: HasAt(v, q, "FREQ=") && KnownFreqAt(v, q + 5)
  {
    ParamsFreq(v, 0, DefaultRule);
    if ParseRRule(v).Parsed? && HasAt(v, 0, "FREQ=") && KnownFreqAt(v, 5) {
      assert At(v, 0) == 'F';
      assert ParamKeyAt(v, 0) == FreqKey;
      var (rule2, q) := ParamStep(v, 0, DefaultRule).value;
      ParamsFreq(v, q, rule2);
    }
  }

  /** An unknown frequency such as HOURLY is not accepted. */
  lemma {:induction false} HourlyNotAccepted()
    ensures ParseRRule("FREQ=HOURLY") == Parsed(DefaultRule)
  {
    var s := "FREQ=HOURLY";
    assert HasAt(s, 0, "FREQ=");
    NotHasAt(s, 5, "DAILY");
    NotHasAt(s, 5, "WEEKLY");
    NotHasAt(s, 5, "MONTHLY");
    NotHasAt(s, 5, "YEARLY");
    assert SkipParam(s, 5) == 11;
  }
}
