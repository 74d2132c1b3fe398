/**
 The 12-hour clock the widgets and the weather service print: the hour shown for
 a 24-hour hour (midnight and noon show 12), the am/pm half, and the
 "h:MM" text with an unpadded hour and a zero-padded minute. Every copy in the
 firmware spells the conversion slightly differently (`if hour == 0 … else if
 hour > 12 …`, or `if hour > 12 …; if hour == 0 …`); all of them compute Hour12.
 */
module Clock {
  import opened Wrappers
  import opened Text

  const SECONDS_PER_DAY: int := 86400

  predicate IsPm(h: int) { h >= 12 }

  /** The hour a 12-hour clock shows for the 24-hour hour h. */
  function Hour12(h: int): (r: int)
    requires 0 <= h < 24
    ensures 1 <= r <= 12 && r % 12 == h % 12
  {
    if h == 0 then 12 else if h > 12 then h - 12 else h
  }

  /** The 24-hour hour a 12-hour reading names. */
  function Hour24(h12: int, pm: bool): (h: int)
    requires 1 <= h12 <= 12
    ensures 0 <= h < 24 && IsPm(h) == pm && h % 12 == h12 % 12
  {
    h12 % 12 + (if pm then 12 else 0)
  }

  /** The 12-hour reading and the half of the day give the 24-hour hour back. */
  lemma {:induction false} Hour12Inverts(h: int)
    requires 0 <= h < 24
    ensures Hour24(Hour12(h), IsPm(h)) == h
  {
  }

  /** Every 12-hour reading is shown for exactly one hour of each half of the day. */
  lemma {:induction false} Hour24Inverts(h12: int, pm: bool)
    requires 1 <= h12 <= 12
    ensures Hour12(Hour24(h12, pm)) == h12
  {
  }

  /** Hours, minutes and seconds of the second of the day. */
  datatype TimeOfDay = TimeOfDay(hours: int, minutes: int, seconds: int)

  /** `secondsInDay / 3600`, `(secondsInDay % 3600) / 60` and `secondsInDay % 60` of a local time. */
  function TimeOfDayOf(local: nat): (t: TimeOfDay)
    ensures 0 <= t.hours < 24 && 0 <= t.minutes < 60 && 0 <= t.seconds < 60
    ensures t.hours * 3600 + t.minutes * 60 + t.seconds == local % SECONDS_PER_DAY
  {
    var sod := local % SECONDS_PER_DAY;
    TimeOfDay(sod / 3600, sod % 3600 / 60, sod % 60)
  }

  /** `%d:%02d`: the 12-hour hour unpadded and the minute zero padded. */
  function HourMinuteText(h: int, m: nat): (t: string)
    requires 0 <= h < 24
  {
    NatToString(Hour12(h)) + ":" + Pad2(m)
  }

  /** Reads an unpadded hour, a colon and two minute digits from the front of t. */
  function ReadHourMinute(t: string): (r: Option<(nat, nat, nat)>)
    ensures r.Some? ==> r.value.2 <= |t|
  {
    var n := DigitRun(t);
    if n == 0 || n + 3 > |t| || t[n] != ':' || !IsDigit(t[n + 1]) || !IsDigit(t[n + 2]) then None
    else Some((DecimalValue(t[..n]), DigitValue(t[n + 1]) * 10 + DigitValue(t[n + 2]), n + 3))
  }

  /** Two digits read back as their decimal value. */
  lemma {:induction false} TwoDigits(s: string)
    requires |s| == 2 && AllDigits(s)
    ensures DecimalValue(s) == DigitValue(s[0]) * 10 + DigitValue(s[1])
  {
    var a := s[..1];
    assert a[..0] == [] && a[0] == s[0] && s[..|s| - 1] == a;
    assert DecimalValue(a) == DecimalValue(a[..0]) * 10 + DigitValue(s[0]);
  }

  /**
   The hour-and-minute text reads back as the 12-hour hour and the minute, and
   whatever follows it (a suffix that does not start with a digit) is left over.
   */
  lemma {:induction false} HourMinuteReadsBack(h: int, m: nat, rest: string)
    requires 0 <= h < 24 && m < 60
    requires rest == [] || !IsDigit(rest[0])
    ensures ReadHourMinute(HourMinuteText(h, m) + rest) == Some((Hour12(h), m, |HourMinuteText(h, m)|))
  {
    var hs := NatToString(Hour12(h));
    var ms := Pad2(m);
    var t := HourMinuteText(h, m) + rest;
    assert t == hs + (":" + ms + rest);
    DigitRunOfDigits(hs, ":" + ms + rest);
    var n := |hs|;
    assert t[..n] == hs;
    assert t[n] == ':' && t[n + 1] == ms[0] && t[n + 2] == ms[1];
    TwoDigits(ms);
  }

  /** The unpadded 12-hour hour and an ending that does not start with a digit: the digits are the hour, the ending follows. */
  lemma {:induction false} HourTextParts(h: int, ending: string)
    requires 0 <= h < 24 && (ending == [] || !IsDigit(ending[0]))
    ensures var hs := NatToString(Hour12(h));
            var s := hs + ending;
            1 <= |hs| <= 2 && DigitRun(s) == |hs| && s[..|hs|] == hs && s[|hs|..] == ending
            && DecimalValue(hs) == Hour12(h)
  {
    var hs := NatToString(Hour12(h));
    DigitRunOfDigits(hs, ending);
    assert (hs + ending)[|hs|..] == ending;
  }

  /** The hour-and-minute text and an ending that does not start with a digit: its pieces, and the reading of it. */
  lemma {:induction false} HourMinuteTextParts(h: int, m: nat, ending: string)
    requires 0 <= h < 24 && m < 60 && (ending == [] || !IsDigit(ending[0]))
    ensures var hs := NatToString(Hour12(h));
            var s := HourMinuteText(h, m) + ending;
            1 <= |hs| <= 2 && DigitRun(s) == |hs| && s[..|hs|] == hs && |s| == |hs| + 3 + |ending|
            && s[|hs| + 3..] == ending && DecimalValue(hs) == Hour12(h)
            && ReadHourMinute(s) == Some((Hour12(h), m, |hs| + 3))
  {
    var hs := NatToString(Hour12(h));
    var ms := Pad2(m);
    var s := HourMinuteText(h, m) + ending;
    assert s == hs + (":" + ms + ending);
    DigitRunOfDigits(hs, ":" + ms + ending);
    HourMinuteReadsBack(h, m, ending);
    assert s[..|hs|] == hs && s[|hs| + 3..] == ending;
  }

  /** `%d:%02d%s` with "am" or "pm": the sunrise and sunset text of the weather service. */
  function ClockText(h: int, m: nat): (t: string)
    requires 0 <= h < 24
  {
    HourMinuteText(h, m) + (if IsPm(h) then "pm" else "am")
  }

  /** The clock text names the hour and minute it was made from: reading it back gives them. */
  lemma {:induction false} ClockTextReadsBack(h: int, m: nat)
    requires 0 <= h < 24 && m < 60
    ensures var t := ClockText(h, m);
            var r := ReadHourMinute(t);
            r.Some? && r.value.1 == m && 1 <= r.value.0 <= 12
            && t[r.value.2..] == (if IsPm(h) then "pm" else "am")
            && Hour24(r.value.0, t[r.value.2..] == "pm") == h
  {
    HourMinuteReadsBack(h, m, if IsPm(h) then "pm" else "am");
    Hour12Inverts(h);
  }
}
