/**
 The ICS parser's per-event helpers: FindProperty (the first line of an event
 block that carries a property), ParseTimezoneOffset, ParseDateTime, ParseEvent
 and IsEventInWindow.

 An event block is a range [start, end) of the parser's buffer `s`. The C code
 compares with `strncmp` and may look one character past the end of the block;
 the model reads with Text.At, which gives NUL past the end of the buffer, as
 the terminating NUL does.
 */
module IcsProps {
  import opened Wrappers
  import opened Machine
  import opened Text
  import Civil
  import Timestamp
  import Scan
  import Weekdays
  import opened Events

  const HOUR: int := 3600

  // ---------------------------------------------------------------------------
  // FindProperty
  // ---------------------------------------------------------------------------

  /** The end of the value that starts at p: the first CR, LF or the end of the block. */
  function LineEnd(s: string, p: nat, end: nat): (q: nat)
    requires p <= |s| && end <= |s|
    ensures p <= q <= |s|
    ensures q < end ==> s[q] == '\r' || s[q] == '\n'
    ensures forall k | p <= k < q :: k < end && s[k] != '\r' && s[k] != '\n'
    decreases |s| - p
  {
    if p < end && s[p] != '\r' && s[p] != '\n' then
      var q := LineEnd(s, p + 1, end);
      assert forall k | p + 1 <= k < q :: k < end && s[k] != '\r' && s[k] != '\n';
      q
    else p
  }

  /** The first LF at or after p inside the block, or the block's end. */
  function NewlineAt(s: string, p: nat, end: nat): (q: nat)
    requires p <= end <= |s|
    ensures p <= q <= end
    ensures q < end ==> s[q] == '\n'
    ensures forall k | p <= k < q :: s[k] != '\n'
    decreases end - p
  {
    if p < end && s[p] != '\n' then
      var q := NewlineAt(s, p + 1, end);
      assert forall k | p + 1 <= k < q :: s[k] != '\n';
      q
    else p
  }

  /** The start of the next line: just past the next LF, or the block's end. */
  function NextLine(s: string, p: nat, end: nat): (q: nat)
    requires p < end <= |s|
    ensures p < q <= end
  {
    var n := NewlineAt(s, p, end);
    if n < end then n + 1 else n
  }

  /** p is where a line of the block [start, ..) begins. */
  predicate LineStart(s: string, start: nat, p: nat) {
    p == start || (start < p <= |s| && s[p - 1] == '\n')
  }

  /** The line at p names the property: its name followed by ':' or ';'. */
  predicate Names(s: string, p: nat, name: string) {
    HasAt(s, p, name) && (At(s, p + |name|) == ':' || At(s, p + |name|) == ';')
  }

  /**
   The value the line at p gives the property: after "NAME:" the rest of the line;
   after "NAME;" the rest of the line with the ';' and the parameters, so that
   ParseDateTime sees "TZID=" and "VALUE=DATE". At most maxLen - 1 characters are kept.
   */
  function PropertyValue(s: string, p: nat, end: nat, name: string, maxLen: nat): (r: Option<string>)
    requires end <= |s| && maxLen >= 1
    ensures r.Some? <==> Names(s, p, name)
    ensures r.Some? ==> |r.value| < maxLen
  {
    if !HasAt(s, p, name) then None
    else
      var a := p + |name|;
      if At(s, a) == ';' then Some(Truncate(s[a..LineEnd(s, a, end)], maxLen))
      else if At(s, a) == ':' then Some(Truncate(s[a + 1..LineEnd(s, a + 1, end)], maxLen))
      else None
  }

  /** The line loop of FindProperty from the line starting at pos. */
  function FindPropertyFrom(s: string, pos: nat, end: nat, name: string, maxLen: nat): (r: Option<string>)
    requires pos <= end <= |s| && maxLen >= 1
    decreases end - pos
  {
    if pos >= end then None
    else
      var v := PropertyValue(s, pos, end, name, maxLen);
      if v.Some? then v else FindPropertyFrom(s, NextLine(s, pos, end), end, name, maxLen)
  }

  /** FindProperty: the value of the property on the block's lines, copied into a buffer of maxLen. */
  function FindProperty(s: string, start: nat, end: nat, name: string, maxLen: nat): (r: Option<string>)
    requires start <= end <= |s| && maxLen >= 1
    ensures r.Some? ==> |r.value| < maxLen
  {
    FindPropertyLength(s, start, end, name, maxLen);
    FindPropertyFrom(s, start, end, name, maxLen)
  }

  lemma {:induction false} FindPropertyLength(s: string, pos: nat, end: nat, name: string, maxLen: nat)
    requires pos <= end <= |s| && maxLen >= 1
    ensures var r := FindPropertyFrom(s, pos, end, name, maxLen);
      r.Some? ==> |r.value| < maxLen
    decreases end - pos
  {
    if pos < end && !Names(s, pos, name) {
      FindPropertyLength(s, NextLine(s, pos, end), end, name, maxLen);
    }
  }

  /**
   FindProperty finds the property exactly when some line of the block names it,
   and then returns the value on the first such line.
   */
  lemma {:induction false} FindPropertyIsFirstLine(s: string, start: nat, end: nat, name: string, maxLen: nat)
    requires start <= end <= |s| && maxLen >= 1
    ensures var r := FindProperty(s, start, end, name, maxLen);
      (r.None? <==> forall p :: start <= p < end && LineStart(s, start, p) ==> !Names(s, p, name))
      && forall p :: start <= p < end && LineStart(s, start, p) && Names(s, p, name)
           && (forall q :: start <= q < p && LineStart(s, start, q) ==> !Names(s, q, name))
           ==> r == PropertyValue(s, p, end, name, maxLen)
  {
    FindPropertyFromSpec(s, start, start, end, name, maxLen);
  }

  /** The loop invariant: pos starts a line, and no earlier line names the property. */
  lemma {:induction false} FindPropertyFromSpec(s: string, start: nat, pos: nat, end: nat, name: string, maxLen: nat)
    requires start <= pos <= end <= |s| && maxLen >= 1
    requires pos < end ==> LineStart(s, start, pos)
    requires forall q :: start <= q < pos && LineStart(s, start, q) ==> !Names(s, q, name)
    ensures var r := FindPropertyFrom(s, pos, end, name, maxLen);
      (r.None? <==> forall p :: start <= p < end && LineStart(s, start, p) ==> !Names(s, p, name))
      && forall p :: start <= p < end && LineStart(s, start, p) && Names(s, p, name)
           && (forall q :: start <= q < p && LineStart(s, start, q) ==> !Names(s, q, name))
           ==> r == PropertyValue(s, p, end, name, maxLen)
    decreases end - pos
  {
    if pos < end {
      if Names(s, pos, name) {
        forall p | start <= p < end && LineStart(s, start, p) && Names(s, p, name)
          && (forall q :: start <= q < p && LineStart(s, start, q) ==> !Names(s, q, name))
          ensures p == pos
        {
          assert LineStart(s, start, pos) && Names(s, pos, name);
        }
      } else {
        var n := NextLine(s, pos, end);
        var nl := NewlineAt(s, pos, end);
        forall q | pos < q < n ensures !LineStart(s, start, q) {
          assert pos <= q - 1 < nl;
        }
        forall q | start <= q < n && LineStart(s, start, q) ensures !Names(s, q, name) {
          if q >= pos {
            assert q == pos;
          }
        }
        FindPropertyFromSpec(s, start, n, end, name, maxLen);
      }
    }
  }

  // ---------------------------------------------------------------------------
  // ParseTimezoneOffset
  // ---------------------------------------------------------------------------

  /** An offset the table can give: whole hours from -10 h to +2 h. */
  predicate OffsetInRange(r: int) {
    r % HOUR == 0 && -10 * HOUR <= r <= 2 * HOUR
  }

  /** The exact-match abbreviations at the head of the table (fixed offsets). */
  function AbbreviationOffset(tz: string): (r: Option<int>)
    ensures r.Some? ==> OffsetInRange(r.value)
  {
    if tz == "EST" then Some(-5 * HOUR)
    else if tz == "CST" then Some(-6 * HOUR)
    else if tz == "MST" then Some(-7 * HOUR)
    else if tz == "PST" then Some(-8 * HOUR)
    else if tz == "AKST" then Some(-9 * HOUR)
    else if tz == "HST" then Some(-10 * HOUR)
    else if tz == "EDT" then Some(-4 * HOUR)
    else if tz == "CDT" then Some(-5 * HOUR)
    else if tz == "MDT" then Some(-6 * HOUR)
    else if tz == "PDT" then Some(-7 * HOUR)
    else if tz == "AKDT" then Some(-8 * HOUR)
    else None
  }

  /** The US zones that observe summer time, found by substring. */
  function UsDstZoneOffset(tz: string, usDst: bool): (r: Option<int>)
    ensures r.Some? ==> OffsetInRange(r.value)
  {
    var shift := if usDst then HOUR else 0;
    if Contains(tz, "Eastern") || Contains(tz, "America/New_York") || Contains(tz, "US/Eastern") then
      Some(-5 * HOUR + shift)
    else if Contains(tz, "Central") || Contains(tz, "America/Chicago") || Contains(tz, "US/Central") then
      Some(-6 * HOUR + shift)
    else if Contains(tz, "Mountain") || Contains(tz, "America/Denver") || Contains(tz, "US/Mountain") then
      Some(-7 * HOUR + shift)
    else if Contains(tz, "Pacific") || Contains(tz, "America/Los_Angeles") || Contains(tz, "US/Pacific") then
      Some(-8 * HOUR + shift)
    else if Contains(tz, "Alaska") || Contains(tz, "America/Anchorage") then
      Some(-9 * HOUR + shift)
    else None
  }

  /** Arizona (no summer time). */
  function ArizonaOffset(tz: string): (r: Option<int>)
    ensures r.Some? ==> OffsetInRange(r.value)
  {
    if Contains(tz, "Arizona") || Contains(tz, "America/Phoenix") then Some(-7 * HOUR) else None
  }

  /** Hawaii (no summer time). */
  function HawaiiOffset(tz: string): (r: Option<int>)
    ensures r.Some? ==> OffsetInRange(r.value)
  {
    if Contains(tz, "Hawaii") || Contains(tz, "Pacific/Honolulu") then Some(-10 * HOUR) else None
  }

  /** The European names, and UTC for every name the table does not know. */
  function EuropeOffset(tz: string, euDst: bool): (r: int)
    ensures OffsetInRange(r)
  {
    if tz == "GMT" then 0
    else if tz == "BST" then HOUR
    else if Contains(tz, "Europe/London") then (if euDst then HOUR else 0)
    else if tz == "CET" then HOUR
    else if tz == "CEST" then 2 * HOUR
    else if Contains(tz, "Europe/Paris") || Contains(tz, "Europe/Berlin") then (if euDst then 2 * HOUR else HOUR)
    else 0
  }

  /**
   ParseTimezoneOffset as written: the US summer-time zones are tried before
   Hawaii, so "Pacific/Honolulu" is caught by the "Pacific" test.
   */
  function TimezoneOffsetAsWritten(tz: string, year: u32, month: u32, day: u32): (r: int)
    ensures OffsetInRange(r)
  {
    var fixed := AbbreviationOffset(tz);
    if fixed.Some? then fixed.value
    else
      var us := UsDstZoneOffset(tz, Weekdays.IsInUsDst(year, month, day));
      if us.Some? then us.value
      else if ArizonaOffset(tz).Some? then ArizonaOffset(tz).value
      else if HawaiiOffset(tz).Some? then HawaiiOffset(tz).value
      else EuropeOffset(tz, Weekdays.IsInEuDst(year, month, day))
  }

  /** ParseTimezoneOffset with the Hawaii test moved ahead of the US summer-time zones. */
  function TimezoneOffset(tz: string, year: u32, month: u32, day: u32): (r: int)
    ensures OffsetInRange(r)
    ensures (Contains(tz, "Hawaii") || Contains(tz, "Pacific/Honolulu")) && AbbreviationOffset(tz).None?
      ==> r == -10 * HOUR
  {
    var fixed := AbbreviationOffset(tz);
    if fixed.Some? then fixed.value
    else if HawaiiOffset(tz).Some? then HawaiiOffset(tz).value
    else
      var us := UsDstZoneOffset(tz, Weekdays.IsInUsDst(year, month, day));
      if us.Some? then us.value
      else if ArizonaOffset(tz).Some? then ArizonaOffset(tz).value
      else EuropeOffset(tz, Weekdays.IsInEuDst(year, month, day))
  }

  /** The correction changes nothing for a name that mentions neither Hawaii nor Honolulu. */
  lemma {:induction false} TimezoneOffsetAgrees(tz: string, year: u32, month: u32, day: u32)
    requires !Contains(tz, "Hawaii") && !Contains(tz, "Pacific/Honolulu")
    ensures TimezoneOffset(tz, year, month, day) == TimezoneOffsetAsWritten(tz, year, month, day)
  {
  }

  /** As written, "Pacific/Honolulu" gets the US Pacific offset, -8 h or -7 h in summer, not -10 h. */
  lemma {:induction false} HonoluluAsWritten(year: u32, month: u32, day: u32)
    ensures TimezoneOffsetAsWritten("Pacific/Honolulu", year, month, day)
         == if Weekdays.IsInUsDst(year, month, day) then -7 * HOUR else -8 * HOUR
  {
    assert AbbreviationOffset("Pacific/Honolulu").None?;
    HonoluluIsUsPacific(Weekdays.IsInUsDst(year, month, day));
  }

  /** "Pacific/Honolulu" misses the Eastern, Central and Mountain tests and hits "Pacific". */
  lemma {:induction false} HonoluluIsUsPacific(usDst: bool)
    ensures UsDstZoneOffset("Pacific/Honolulu", usDst) == Some(-8 * HOUR + if usDst then HOUR else 0)
  {
    var tz := "Pacific/Honolulu";
    HonoluluMissesEast(tz);
    HonoluluMissesMountain(tz);
    assert HasAt(tz, 0, "Pacific");
  }

  lemma {:induction false} HonoluluMissesMountain(tz: string)
    requires tz == "Pacific/Honolulu"
    ensures !Contains(tz, "Mountain") && !Contains(tz, "America/Denver") && !Contains(tz, "US/Mountain")
  {
    FirstCharAbsent(tz, "Mountain");
    FirstCharAbsent(tz, "America/Denver");
    FirstCharAbsent(tz, "US/Mountain");
  }

  lemma {:induction false} HonoluluMissesEast(tz: string)
    requires tz == "Pacific/Honolulu"
    ensures !Contains(tz, "Eastern") && !Contains(tz, "America/New_York") && !Contains(tz, "US/Eastern")
    ensures !Contains(tz, "Central") && !Contains(tz, "America/Chicago") && !Contains(tz, "US/Central")
  {
    FirstCharAbsent(tz, "Eastern");
    FirstCharAbsent(tz, "America/New_York");
    FirstCharAbsent(tz, "US/Eastern");
    FirstCharAbsent(tz, "Central");
    FirstCharAbsent(tz, "America/Chicago");
    FirstCharAbsent(tz, "US/Central");
  }

  /** With the correction, "Pacific/Honolulu" is Hawaii time all year. */
  lemma {:induction false} HonoluluCorrected(year: u32, month: u32, day: u32)
    ensures TimezoneOffset("Pacific/Honolulu", year, month, day) == -10 * HOUR
  {
    ContainsSelf("Pacific/Honolulu");
  }

  // ---------------------------------------------------------------------------
  // ParseDateTime
  // ---------------------------------------------------------------------------

  /** What ParseDateTime gives: a timestamp and the all-day flag, or a read past its month table. */
  datatype Stamp = Time(ts: u32, allDay: bool) | MonthPastTable

  /** Size of ParseDateTime's zone-name buffer. */
  const TZ_NAME_SIZE: nat := 64

  /** The zone after "TZID=", up to the next ':' (none without that ':'), cut to 63 characters. */
  function TzidName(s: string): (r: Option<string>)
    ensures r.Some? ==> |r.value| < TZ_NAME_SIZE
  {
    var t := Find(s, "TZID=", 0);
    if t.None? then None
    else
      var c := FindChar(s, ':', t.value + 5);
      if c.None? then None else Some(Truncate(s[t.value + 5..c.value], TZ_NAME_SIZE))
  }

  /** "VALUE=DATE" occurs before the first ':' of the value. */
  predicate ParamsSayAllDay(s: string) {
    var c := FindChar(s, ':', 0);
    var v := Find(s, "VALUE=DATE", 0);
    c.Some? && v.Some? && v.value < c.value
  }

  /** The date-time text: what follows the first ':', or the whole value without one. */
  function DateValue(s: string): (r: string)
    ensures |r| <= |s|
  {
    var c := FindChar(s, ':', 0);
    if c.Some? then s[c.value + 1..] else s
  }

  /**
   The stamp itself. Eight characters, or a ninth that is not 'T', make a date
   (all-day, midnight UTC; 0 when `%4d%2d%2d` fails). Fifteen or more make a date
   and a time: UTC with a trailing 'Z' or without TZID, otherwise local time in the
   TZID zone, converted through a signed 32-bit subtraction. Anything else is 0.
   Both branches walk a twelve-entry month table for month - 1 entries, so a
   month of 14 or more reads past it.
   */
  function ParseStamp(v: string, allDay: bool, tz: Option<string>): (r: Stamp)
    ensures r.Time? && (|v| == 8 || (|v| > 8 && v[8] != 'T')) ==> r.allDay
    ensures r.Time? && |v| != 8 && !(|v| > 8 && v[8] != 'T') ==> r.allDay == allDay
  {
    if |v| == 8 || (|v| > 8 && v[8] != 'T') then DateStamp(Scan.ScanDate(v, 0))
    else if |v| >= 15 then DateTimeStamp(Scan.ScanDateTime(v, 0), v[|v| - 1] == 'Z', allDay, tz)
    else Time(0, allDay)
  }

  /** The date branch, from the result of `%4d%2d%2d`. */
  function DateStamp(f: Option<(int, int, int)>): (r: Stamp)
    ensures r.Time? ==> r.allDay
  {
    if f.None? then Time(0, true)
    else if f.value.1 >= 14 then MonthPastTable
    else Time(Timestamp.DateToTimestampHelper(f.value.0, f.value.1, f.value.2), true)
  }

  /** The date-and-time branch, from the result of `%4d%2d%2dT%2d%2d%2d`. */
  function DateTimeStamp(f: Option<(int, int, int, int, int, int)>, isUtc: bool, allDay: bool, tz: Option<string>): (r: Stamp)
    ensures r.Time? ==> r.allDay == allDay
  {
    if f.None? then Time(0, allDay)
    else
      var (y, m, d, h, mi, sec) := f.value;
      if m >= 14 then MonthPastTable
      else
        var local := LocalTimestamp(y, m, d, h, mi, sec);
        if !isUtc && tz.Some? then Time(ZoneToUtc(local, OffsetOnDate(tz.value, y, m, d)), allDay)
        else Time(local, allDay)
  }

  /** The zone's offset on the scanned date; the `int` fields are passed as `unsigned`. */
  function OffsetOnDate(tz: string, y: int, m: int, d: int): (r: int)
    ensures OffsetInRange(r)
  {
    TimezoneOffset(tz, U32(y), U32(m), U32(d))
  }

  /** Local time at a zone offset to UTC: `(unsigned)((int)local - offset)`. */
  function ZoneToUtc(local: u32, offset: int): (r: u32)
    ensures (local - offset - r) % TWO32 == 0
  {
    U32(I32(local) - offset)
  }

  /** The unsigned seconds count ParseDateTime builds from the six fields. */
  function LocalTimestamp(y: int, m: int, d: int, h: int, mi: int, sec: int): u32
    requires m <= 13
  {
    U32(Timestamp.DayCount(y, m - 1, d) * Timestamp.SECONDS_PER_DAY + h * 3600 + mi * 60 + sec)
  }

  /** ParseDateTime: the parameters (TZID, VALUE=DATE) and the stamp of a DTSTART or DTEND value. */
  function ParseDateTime(s: string): (r: Stamp)
    ensures r.Time? && ParamsSayAllDay(s) ==> r.allDay
  {
    ParseStamp(DateValue(s), ParamsSayAllDay(s), TzidName(s))
  }

  /** `%02d` of a number below 100. */
  function Digits2(x: nat): (t: string)
    requires x < 100
    ensures |t| == 2
  {
    [DigitChar(x / 10), DigitChar(x % 10)]
  }

  /** `%04d` of a number below 10000. */
  function Digits4(x: nat): (t: string)
    requires x < 10000
    ensures |t| == 4
  {
    [DigitChar(x / 1000), DigitChar(x / 100 % 10), DigitChar(x / 10 % 10), DigitChar(x % 10)]
  }

  /** YYYYMMDD as `%04d%02d%02d` writes it. */
  function DateText(y: nat, m: nat, d: nat): (t: string)
    requires y < 10000 && m < 100 && d < 100
    ensures |t| == 8
  {
    Digits4(y) + Digits2(m) + Digits2(d)
  }

  /** YYYYMMDDTHHMMSS. */
  function DateTimeText(y: nat, m: nat, d: nat, h: nat, mi: nat, sec: nat): (t: string)
    requires y < 10000 && m < 100 && d < 100 && h < 100 && mi < 100 && sec < 100
    ensures |t| == 15
  {
    DateText(y, m, d) + "T" + Digits2(h) + Digits2(mi) + Digits2(sec)
  }

  /** Two digits written by Digits2 read back as the number. */
  lemma {:induction false} Field2ReadsBack(s: string, p: nat, x: nat)
    requires x < 100 && p + 2 <= |s| && s[p] == DigitChar(x / 10) && s[p + 1] == DigitChar(x % 10)
    ensures Scan.FieldValue(s, p, 2) == x
  {
  }

  /** Four digits written by Digits4 read back as the number. */
  lemma {:induction false} Field4ReadsBack(s: string, p: nat, x: nat)
    requires x < 10000 && p + 4 <= |s|
    requires s[p] == DigitChar(x / 1000) && s[p + 1] == DigitChar(x / 100 % 10)
    requires s[p + 2] == DigitChar(x / 10 % 10) && s[p + 3] == DigitChar(x % 10)
    ensures Scan.FieldValue(s, p, 4) == x
  {
    var a, b, c, e := x / 1000, x / 100 % 10, x / 10 % 10, x % 10;
    assert Scan.FieldValue(s, p, 4) == ((a * 10 + b) * 10 + c) * 10 + e;
    FourDigits(x);
  }

  /** The four decimal digits of x, read left to right, give x back. */
  lemma {:induction false} FourDigits(x: nat)
    requires x < 10000
    ensures ((x / 1000 * 10 + x / 100 % 10) * 10 + x / 10 % 10) * 10 + x % 10 == x
  {
    var a, r := x / 1000, x % 1000;
    var b, t := r / 100, r % 100;
    assert x == 1000 * a + 100 * b + t;
    assert x / 100 == 10 * a + b;
    assert x / 100 % 10 == b;
    assert x % 100 == t;
    assert x / 10 % 10 == t / 10;
  }

  /** A written date at the front of s scans back as its three fields. */
  lemma {:induction false} DateTextScans(s: string, y: nat, m: nat, d: nat)
    requires y < 10000 && m < 100 && d < 100
    requires DateText(y, m, d) <= s
    ensures Scan.ScanDate(s, 0) == Some((y, m, d))
  {
    var t := DateText(y, m, d);
    assert forall k | 0 <= k < 8 :: s[k] == t[k];
    Field4ReadsBack(s, 0, y);
    Field2ReadsBack(s, 4, m);
    Field2ReadsBack(s, 6, d);
    Scan.ScanDateDigits(s, 0);
  }

  /** The characters of a written date and time. */
  lemma {:induction false} DateTimeChars(s: string, y: nat, m: nat, d: nat, h: nat, mi: nat, sec: nat)
    requires y < 10000 && m < 100 && d < 100 && h < 100 && mi < 100 && sec < 100
    requires DateTimeText(y, m, d, h, mi, sec) <= s
    ensures |s| >= 15 && s[8] == 'T'
    ensures s[0] == DigitChar(y / 1000) && s[1] == DigitChar(y / 100 % 10)
    ensures s[2] == DigitChar(y / 10 % 10) && s[3] == DigitChar(y % 10)
    ensures s[4] == DigitChar(m / 10) && s[5] == DigitChar(m % 10)
    ensures s[6] == DigitChar(d / 10) && s[7] == DigitChar(d % 10)
    ensures s[9] == DigitChar(h / 10) && s[10] == DigitChar(h % 10)
    ensures s[11] == DigitChar(mi / 10) && s[12] == DigitChar(mi % 10)
    ensures s[13] == DigitChar(sec / 10) && s[14] == DigitChar(sec % 10)
  {
    var t := DateTimeText(y, m, d, h, mi, sec);
    assert forall k | 0 <= k < 15 :: s[k] == t[k];
  }

  /** A written date and time at the front of s scans back as its six fields. */
  lemma {:induction false} DateTimeTextScans(s: string, y: nat, m: nat, d: nat, h: nat, mi: nat, sec: nat)
    requires y < 10000 && m < 100 && d < 100 && h < 100 && mi < 100 && sec < 100
    requires DateTimeText(y, m, d, h, mi, sec) <= s
    ensures Scan.ScanDateTime(s, 0) == Some((y, m, d, h, mi, sec))
  {
    DateTimeChars(s, y, m, d, h, mi, sec);
    Field4ReadsBack(s, 0, y);
    Field2ReadsBack(s, 4, m);
    Field2ReadsBack(s, 6, d);
    Field2ReadsBack(s, 9, h);
    Field2ReadsBack(s, 11, mi);
    Field2ReadsBack(s, 13, sec);
    Scan.ScanDateTimeDigits(s, 0);
  }

  /** A written date is all digits; a written date and time is digits around the 'T'. */
  lemma {:induction false} TextShape(y: nat, m: nat, d: nat, h: nat, mi: nat, sec: nat)
    requires y < 10000 && m < 100 && d < 100 && h < 100 && mi < 100 && sec < 100
    ensures AllDigits(DateText(y, m, d))
    ensures var t := DateTimeText(y, m, d, h, mi, sec);
      t[8] == 'T' && forall k | 0 <= k < 15 && k != 8 :: IsDigit(t[k])
  {
    var a, b, c := Digits4(y), Digits2(m), Digits2(d);
    assert AllDigits(a) && AllDigits(b) && AllDigits(c);
    var dt := DateText(y, m, d);
    assert forall k | 0 <= k < 8 :: dt[k] == if k < 4 then a[k] else if k < 6 then b[k - 4] else c[k - 6];
    var e, f, g := Digits2(h), Digits2(mi), Digits2(sec);
    assert AllDigits(e) && AllDigits(f) && AllDigits(g);
    var t := DateTimeText(y, m, d, h, mi, sec);
    assert forall k | 9 <= k < 15 :: t[k] == if k < 11 then e[k - 9] else if k < 13 then f[k - 11] else g[k - 13];
    assert forall k | 0 <= k < 8 :: t[k] == dt[k];
  }

  /** The calendar reading of the six fields: days since 1970 times 86400 plus the time of day, modulo 2^32. */
  lemma {:induction false} LocalTimestampIsCivil(date: Civil.Date, h: int, mi: int, sec: int)
    requires Civil.ValidDate(date) && date.year >= 1970
    ensures LocalTimestamp(date.year, date.month, date.day, h, mi, sec)
         == U32(Civil.DaysFromCivil(date) * Timestamp.SECONDS_PER_DAY + h * 3600 + mi * 60 + sec)
  {
    var n := Civil.DaysFromCivil(date);
    var rest := h * 3600 + mi * 60 + sec;
    Timestamp.DayCountIsCivil(date);
    Timestamp.U32Mul(n, Timestamp.SECONDS_PER_DAY);
    U32Add(n * Timestamp.SECONDS_PER_DAY, rest);
    U32Add(U32(n) * Timestamp.SECONDS_PER_DAY, rest);
  }

  /** Without a ':' there are no parameters: the whole value is the stamp, with no zone and no VALUE=DATE. */
  lemma {:induction false} NoParams(v: string)
    requires ':' !in v
    ensures ParseDateTime(v) == ParseStamp(v, false, None)
  {
    assert FindChar(v, ':', 0).None?;
    var t := Find(v, "TZID=", 0);
    if t.Some? {
      assert FindChar(v, ':', t.value + 5).None?;
    }
  }

  /** A value that starts with a written date and time takes the date-and-time branch. */
  lemma {:induction false} ParseStampDateTime(v: string, allDay: bool, tz: Option<string>,
                                              y: nat, m: nat, d: nat, h: nat, mi: nat, sec: nat)
    requires y < 10000 && m <= 13 && d < 100 && h < 100 && mi < 100 && sec < 100
    requires DateTimeText(y, m, d, h, mi, sec) <= v
    ensures var local := LocalTimestamp(y, m, d, h, mi, sec);
      ParseStamp(v, allDay, tz)
      == if tz.Some? && v[|v| - 1] != 'Z'
         then Time(ZoneToUtc(local, OffsetOnDate(tz.value, y, m, d)), allDay)
         else Time(local, allDay)
  {
    DateTimeChars(v, y, m, d, h, mi, sec);
    DateTimeTextScans(v, y, m, d, h, mi, sec);
  }

  /**
   A UTC stamp YYYYMMDDTHHMMSSZ parses to its calendar timestamp (modulo 2^32), and
   is not all-day.
   */
  lemma {:induction false} UtcStampParses(date: Civil.Date, h: nat, mi: nat, sec: nat)
    requires Civil.ValidDate(date) && 1970 <= date.year < 10000 && h < 24 && mi < 60 && sec < 60
    ensures ParseDateTime(DateTimeText(date.year, date.month, date.day, h, mi, sec) + "Z")
         == Time(U32(Civil.DaysFromCivil(date) * Timestamp.SECONDS_PER_DAY + h * 3600 + mi * 60 + sec), false)
  {
    var (y, m, d) := (date.year, date.month, date.day);
    var t := DateTimeText(y, m, d, h, mi, sec);
    var v := t + "Z";
    StampHasNoColon(t, y, m, d, h, mi, sec);
    assert ':' !in v by {
      assert forall k | 0 <= k < 15 :: v[k] == t[k];
    }
    NoParams(v);
    ParseStampDateTime(v, false, None, y, m, d, h, mi, sec);
    LocalTimestampIsCivil(date, h, mi, sec);
  }

  lemma {:induction false} StampHasNoColon(t: string, y: nat, m: nat, d: nat, h: nat, mi: nat, sec: nat)
    requires y < 10000 && m < 100 && d < 100 && h < 100 && mi < 100 && sec < 100
    requires t == DateTimeText(y, m, d, h, mi, sec)
    ensures ':' !in t && 'Z' !in t && '=' !in t
  {
    TextShape(y, m, d, h, mi, sec);
  }

  /** A date-only value YYYYMMDD parses to midnight UTC of that day (modulo 2^32), all-day. */
  lemma {:induction false} DateOnlyParses(date: Civil.Date)
    requires Civil.ValidDate(date) && 1970 <= date.year < 10000
    ensures ParseDateTime(DateText(date.year, date.month, date.day))
         == Time(U32(Civil.DaysFromCivil(date) * Timestamp.SECONDS_PER_DAY), true)
  {
    var v := DateText(date.year, date.month, date.day);
    TextShape(date.year, date.month, date.day, 0, 0, 0);
    assert ':' !in v;
    NoParams(v);
    DateTextScans(v, date.year, date.month, date.day);
    Timestamp.HelperIsCivil(date);
  }

  /** Reduction modulo 2^32 is the only u32 congruent to its argument. */
  lemma {:induction false} CongruentU32(a: int, r: u32)
    requires (a - r) % TWO32 == 0
    ensures r == U32(a)
  {
    var k := (a - r) / TWO32;
    assert a == r + k * TWO32;
    ModShift(r, k);
  }

  /** The characters of ";TZID=" + name + ":" + t. */
  lemma {:induction false} TzidValueChars(s: string, name: string, t: string)
    requires s == ";TZID=" + name + ":" + t
    ensures |s| == 7 + |name| + |t| && s[0] == ';' && s[6 + |name|] == ':'
    ensures HasAt(s, 1, "TZID=") && s[5] == '='
    ensures s[6..6 + |name|] == name && s[7 + |name|..] == t
    ensures forall k | 1 <= k < 5 :: s[k] != ':' && s[k] != '='
    ensures forall k | 6 <= k < 6 + |name| :: s[k] == name[k - 6]
    ensures forall k | 7 + |name| <= k < |s| :: s[k] == t[k - 7 - |name|]
  {
    assert s[1..6] == "TZID=";
  }

  /**
   A stamp with a TZID and no 'Z' is local time in that zone: the local count of
   its six fields (LocalTimestampIsCivil) converted by the zone's offset on that
   date (ZoneToUtcShifts: the offset subtracted, modulo 2^32); not all-day.
   */
  lemma {:induction false} TzidStampParses(name: string, y: nat, m: nat, d: nat, h: nat, mi: nat, sec: nat, off: int)
    requires ':' !in name && '=' !in name
    requires y < 10000 && m <= 13 && d < 100 && h < 100 && mi < 100 && sec < 100
    requires off == OffsetOnDate(Truncate(name, TZ_NAME_SIZE), y, m, d)
    ensures ParseDateTime(";TZID=" + name + ":" + DateTimeText(y, m, d, h, mi, sec))
         == Time(ZoneToUtc(LocalTimestamp(y, m, d, h, mi, sec), off), false)
  {
    var t := DateTimeText(y, m, d, h, mi, sec);
    TzidParams(";TZID=" + name + ":" + t, name, t, y, m, d, h, mi, sec);
    StampHasNoColon(t, y, m, d, h, mi, sec);
    assert t[|t| - 1] != 'Z';
    ParseStampDateTime(t, false, Some(Truncate(name, TZ_NAME_SIZE)), y, m, d, h, mi, sec);
  }

  /** Converting a wrapped local count to UTC is subtracting the offset from the exact count, then wrapping. */
  lemma {:induction false} ZoneToUtcShifts(local: u32, x: int, off: int)
    requires local == U32(x)
    ensures ZoneToUtc(local, off) == U32(x - off)
  {
    var r := ZoneToUtc(local, off);
    assert (x - off - r) % TWO32 == 0 by {
      assert (x - local) % TWO32 == 0;
      assert (local - off - r) % TWO32 == 0;
      var k1, k2 := (x - local) / TWO32, (local - off - r) / TWO32;
      assert x - off - r == (k1 + k2) * TWO32;
    }
    CongruentU32(x - off, r);
  }

  /** The parameter part of ";TZID=" + name + ":" + t: the zone is the name, the stamp is t, not all-day. */
  lemma {:induction false} TzidParams(s: string, name: string, t: string,
                                      y: nat, m: nat, d: nat, h: nat, mi: nat, sec: nat)
    requires ':' !in name && '=' !in name
    requires y < 10000 && m < 100 && d < 100 && h < 100 && mi < 100 && sec < 100
    requires t == DateTimeText(y, m, d, h, mi, sec) && s == ";TZID=" + name + ":" + t
    ensures ParseDateTime(s) == ParseStamp(t, false, Some(Truncate(name, TZ_NAME_SIZE)))
  {
    TzidValueChars(s, name, t);
    StampHasNoColon(t, y, m, d, h, mi, sec);
    var c := 6 + |name|;
    assert forall k | 0 <= k < c :: s[k] != ':';
    assert FindChar(s, ':', 0) == Some(c);
    assert FindChar(s, ':', 6) == Some(c);
    assert Find(s, "TZID=", 0) == Some(1) by {
      assert s[0..5][0] == ';';
    }
    assert forall k | 0 <= k < |s| && k != 5 :: s[k] != '=';
    forall i | 0 <= i ensures !HasAt(s, i, "VALUE=DATE") {
      if i + 10 <= |s| {
        if i == 0 {
          assert s[i..i + 10][0] == ';';
        } else {
          assert s[i..i + 10][5] == s[i + 5] != '=';
        }
      }
    }
    FindAbsent(s, "VALUE=DATE", 0);
  }

  /** A timestamp written as the UTC stamp YYYYMMDDTHHMMSSZ. */
  function UtcStampText(ts: u32): (t: string)
  {
    var date := Timestamp.TimestampToDate(ts);
    var sod := ts % Timestamp.SECONDS_PER_DAY;
    if date.year < 0 || date.year >= 10000 || !(1 <= date.month <= 12) || !(1 <= date.day <= 31) then ""
    else DateTimeText(date.year, date.month, date.day, sod / 3600, sod % 3600 / 60, sod % 60) + "Z"
  }

  /** Every timestamp, written as a UTC stamp, parses back to itself. */
  lemma {:induction false} UtcStampRoundTrip(ts: u32)
    ensures ParseDateTime(UtcStampText(ts)) == Time(ts, false)
  {
    var date := Timestamp.TimestampToDate(ts);
    var sod := ts % Timestamp.SECONDS_PER_DAY;
    var (h, mi, sec) := (sod / 3600, sod % 3600 / 60, sod % 60);
    Timestamp.TimestampRoundTrip(ts);
    Timestamp.SecondOfDaySplit(sod);
    YearBelow10000(ts);
    Timestamp.DateToTimestampIsCivil(date, h, mi, sec);
    UtcStampParses(date, h, mi, sec);
  }

  /** A 32-bit timestamp falls before the year 10000. */
  lemma {:induction false} YearBelow10000(ts: u32)
    ensures Timestamp.TimestampToDate(ts).year < 10000
  {
    Timestamp.TimestampToDateIsCivil(ts);
    var n := ts / Timestamp.SECONDS_PER_DAY;
    var date := Civil.CivilFromDays(n);
    Timestamp.TimestampRoundTrip(ts);
    Civil.CivilRoundTrip(date);
    Civil.DaysBeforeYearMonotone(1970, date.year);
    assert Civil.DaysBeforeYear(1970) == 0;
    Civil.DayOfYearBounds(date);
  }

  // ---------------------------------------------------------------------------
  // ParseEvent
  // ---------------------------------------------------------------------------

  /** What ParseEvent gives: an event, no event (a required property is missing), or a read past a month table. */
  datatype EventOutcome = Event(event: CalendarEvent) | NoEvent | EventMonthPastTable

  /** Size of the DTSTART and DTEND buffers. */
  const STAMP_SIZE: nat := 64
  /** Size of the parser's calendar colour buffer. */
  const CALENDAR_COLOR_SIZE: nat := 16

  /** SetCalendarColor: the parser keeps at most 15 characters of the colour. */
  function CalendarColorSetting(color: string): (r: string)
    ensures |r| < CALENDAR_COLOR_SIZE && r <= color
  {
    Truncate(color, CALENDAR_COLOR_SIZE)
  }

  /**
   ParseEvent on the block [start, end): SUMMARY and DTSTART are required, DTEND
   defaults to the start; the event takes (at most seven characters of) the
   calendar's colour and no colour of its own.
   */
  function ParseEvent(s: string, start: nat, end: nat, calendarColor: string): (r: EventOutcome)
    requires start <= end <= |s|
    ensures r.NoEvent? <==> FindProperty(s, start, end, "SUMMARY", TITLE_SIZE).None?
                            || FindProperty(s, start, end, "DTSTART", STAMP_SIZE).None?
    ensures r.Event? ==> FitsBuffers(r.event) && r.event.eventColor == []
    ensures r.Event? ==> r.event.title == FindProperty(s, start, end, "SUMMARY", TITLE_SIZE).value
  {
    var title := FindProperty(s, start, end, "SUMMARY", TITLE_SIZE);
    var dtstart := FindProperty(s, start, end, "DTSTART", STAMP_SIZE);
    if title.None? || dtstart.None? then NoEvent
    else
      var st := ParseDateTime(dtstart.value);
      if st.MonthPastTable? then EventMonthPastTable
      else
        var dtend := FindProperty(s, start, end, "DTEND", STAMP_SIZE);
        var en := if dtend.Some? then ParseDateTime(dtend.value) else Time(st.ts, false);
        if en.MonthPastTable? then EventMonthPastTable
        else Event(CalendarEvent(title.value, st.ts, en.ts, [], Truncate(calendarColor, COLOR_SIZE), st.allDay))
  }

  /** Without a DTEND line the event ends when it starts. */
  lemma {:induction false} NoEndMeansInstant(s: string, start: nat, end: nat, calendarColor: string)
    requires start <= end <= |s|
    requires forall p :: start <= p < end && LineStart(s, start, p) ==> !Names(s, p, "DTEND")
    ensures var r := ParseEvent(s, start, end, calendarColor);
      r.Event? ==> r.event.endTime == r.event.startTime
  {
    FindPropertyIsFirstLine(s, start, end, "DTEND", STAMP_SIZE);
  }

  /** The event's colour is the first seven characters of the colour given to SetCalendarColor. */
  lemma {:induction false} EventColorIsCalendarColor(s: string, start: nat, end: nat, color: string)
    requires start <= end <= |s|
    ensures var r := ParseEvent(s, start, end, CalendarColorSetting(color));
      r.Event? ==> r.event.calendarColor == Truncate(color, COLOR_SIZE)
  {
  }

  // ---------------------------------------------------------------------------
  // IsEventInWindow
  // ---------------------------------------------------------------------------

  /** The UTC day number of a timestamp. */
  function DayOf(t: int): int {
    t / Timestamp.SECONDS_PER_DAY
  }

  /**
   IsEventInWindow: an all-day event is compared by UTC day with the window's
   first and last days; any other event by its start, both ends inclusive.
   */
  predicate InWindow(windowStart: u32, windowEnd: u32, eventStart: u32, allDay: bool) {
    if allDay then DayOf(windowStart) <= DayOf(eventStart) <= DayOf(windowEnd)
    else windowStart <= eventStart <= windowEnd
  }

  /** For a non-empty window, an all-day event is in it exactly when some instant of the window falls on its day. */
  lemma {:induction false} AllDayWindowSpec(windowStart: u32, windowEnd: u32, eventStart: u32)
    requires windowStart <= windowEnd
    ensures InWindow(windowStart, windowEnd, eventStart, true)
        <==> exists t: int :: windowStart <= t <= windowEnd && DayOf(t) == DayOf(eventStart)
  {
    var day := DayOf(eventStart);
    if InWindow(windowStart, windowEnd, eventStart, true) {
      var t := if windowStart >= day * Timestamp.SECONDS_PER_DAY then windowStart as int else day * Timestamp.SECONDS_PER_DAY;
      assert DayOf(t) == day;
      assert windowStart <= t <= windowEnd;
    }
    forall t: int | windowStart <= t <= windowEnd && DayOf(t) == day
      ensures DayOf(windowStart) <= day <= DayOf(windowEnd)
    {
      DayOfMonotone(windowStart, t);
      DayOfMonotone(t, windowEnd);
    }
  }

  lemma {:induction false} DayOfMonotone(a: int, b: int)
    requires a <= b
    ensures DayOf(a) <= DayOf(b)
  {
  }

  /** A timed event in the window is also in it when read as all-day: the all-day test is the wider one. */
  lemma {:induction false} TimedInWindowIsAllDayInWindow(windowStart: u32, windowEnd: u32, eventStart: u32)
    ensures InWindow(windowStart, windowEnd, eventStart, false) ==> InWindow(windowStart, windowEnd, eventStart, true)
  {
    if windowStart <= eventStart <= windowEnd {
      DayOfMonotone(windowStart, eventStart);
      DayOfMonotone(eventStart, windowEnd);
    }
  }
}
