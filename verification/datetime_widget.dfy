/**
 The clock-and-date widget: once per new timer second it renders the local time
 as "h:MM", a zero-padded seconds field and "am"/"pm", and the local date as
 "Weekday, Month D, YYYY". The local time is the timer's UTC seconds plus the
 widget's offset, added in `unsigned` arithmetic.
 */
module DateTimeWidget {
  import opened Machine
  import opened Text
  import Civil
  import Timestamp
  import Clock

  const DAY_NAMES: seq<string> := ["Sunday", "Monday", "Tuesday", "Wednesday", "Thursday", "Friday", "Saturday"]
  const MONTH_NAMES: seq<string> := ["January", "February", "March", "April", "May", "June",
                                      "July", "August", "September", "October", "November", "December"]

  function DayName(w: int): (s: string)
    requires 0 <= w < 7
    ensures 6 <= |s| <= 9
  {
    DAY_NAMES[w]
  }

  function MonthName(i: int): (s: string)
    requires 0 <= i < 12
    ensures 3 <= |s| <= 9
  {
    MONTH_NAMES[i]
  }

  const DATE_BUFFER_SIZE: nat := 64
  const TIME_BUFFER_SIZE: nat := 16
  const SECONDS_BUFFER_SIZE: nat := 8
  const AMPM_BUFFER_SIZE: nat := 4

  /** `GetTime() + m_timezoneOffset` in `unsigned`: the sum wraps modulo 2^32. */
  function LocalTime(now: u32, offset: int): (t: u32)
    ensures t == (now + offset) % TWO32
  {
    U32(now + offset)
  }

  /** The three labels UpdateTime writes. */
  datatype TimeLabels = TimeLabels(time: string, seconds: string, ampm: string)

  /** UpdateTime: the 12-hour "h:MM", the "%02d" seconds and the half of the day. */
  function TimeLabelsOf(local: u32): (l: TimeLabels)
  {
    var t := Clock.TimeOfDayOf(local);
    TimeLabels(Truncate(Clock.HourMinuteText(t.hours, t.minutes), TIME_BUFFER_SIZE),
               Truncate(Pad2(t.seconds), SECONDS_BUFFER_SIZE),
               Truncate(if Clock.IsPm(t.hours) then "pm" else "am", AMPM_BUFFER_SIZE))
  }

  /**
   The time labels name the local second of the day: the hour and minute read back
   from "h:MM" together with the am/pm label and the two seconds digits give
   hours * 3600 + minutes * 60 + seconds = local mod 86400.
   */
  lemma {:induction false} TimeLabelsNameTheSecond(local: u32)
    ensures var l := TimeLabelsOf(local);
            var r := Clock.ReadHourMinute(l.time);
            r.Some? && 1 <= r.value.0 <= 12 && |l.seconds| == 2 && AllDigits(l.seconds)
            && (l.ampm == "pm" || l.ampm == "am")
            && Clock.Hour24(r.value.0, l.ampm == "pm") * 3600 + r.value.1 * 60 + DecimalValue(l.seconds)
               == local % Clock.SECONDS_PER_DAY
  {
    var t := Clock.TimeOfDayOf(local);
    var text := Clock.HourMinuteText(t.hours, t.minutes);
    Clock.HourMinuteReadsBack(t.hours, t.minutes, []);
    assert text + [] == text;
    assert |text| < TIME_BUFFER_SIZE;
    Clock.Hour12Inverts(t.hours);
  }

  /** The calendar fields UpdateDate computes: weekday, year, month index 0-11 and day. */
  datatype DateFields = DateFields(weekday: int, year: int, monthIndex: int, day: int)

  /**
   UpdateDate: whole days, the weekday `(days + 4) % 7`, the year walk from 1970
   and the month walk over January to December (the walks of Timestamp).
   */
  function DateFieldsOf(local: u32): (f: DateFields)
  {
    var days := local / Clock.SECONDS_PER_DAY;
    var (y, rem) := Civil.SplitYears(days, 1970);
    var (m, r) := Timestamp.MonthWalk(Civil.IsLeap(y), rem, 1);
    DateFields((days + 4) % 7, y, m - 1, r + 1)
  }

  /**
   The date fields are the calendar date of the local day: a valid date from 1970
   on whose day number is the number of whole local days, with the weekday of that
   day (Sunday = 0) and a month index in 0..11.
   */
  lemma {:induction false} DateFieldsAreCivil(local: u32)
    ensures var f := DateFieldsOf(local);
            0 <= f.monthIndex < 12 && 0 <= f.weekday < 7 && f.year >= 1970
            && Civil.Date(f.year, f.monthIndex + 1, f.day) == Civil.CivilFromDays(local / Clock.SECONDS_PER_DAY)
            && f.weekday == Civil.Weekday(local / Clock.SECONDS_PER_DAY)
            && 1 <= f.day <= Civil.DaysInMonth(f.year, f.monthIndex + 1)
  {
    Timestamp.TimestampToDateIsCivil(local);
  }

  /** The date label: "%s, %s %u, %u" of weekday name, month name, day and year. */
  function DateLabel(local: u32): (s: string)
  {
    var f := DateFieldsOf(local);
    DateFieldsAreCivil(local);
    Truncate(DayName(f.weekday) + ", " + MonthName(f.monthIndex) + " " + NatToString(f.day) + ", " + NatToString(f.year),
             DATE_BUFFER_SIZE)
  }

  /** The date label of a local time names the local date: weekday and month by name, then the day. */
  lemma {:induction false} DateLabelNamesTheDate(local: u32)
    ensures var d := Civil.CivilFromDays(local / Clock.SECONDS_PER_DAY);
            DateLabel(local) == DayName(Civil.Weekday(local / Clock.SECONDS_PER_DAY)) + ", "
                                + MonthName(d.month - 1) + " " + NatToString(d.day) + ", " + NatToString(d.year)
  {
    DateFieldsAreCivil(local);
    var f := DateFieldsOf(local);
    var text := DayName(f.weekday) + ", " + MonthName(f.monthIndex) + " " + NatToString(f.day) + ", " + NatToString(f.year);
    assert |text| < DATE_BUFFER_SIZE by {
      YearBelow10000(local / Clock.SECONDS_PER_DAY);
      NatLength4(f.year);
      assert |NatToString(f.day)| <= 2;
    }
  }

  /** Day numbers before 2932897 fall in years below 10000. */
  lemma {:induction false} YearBelow10000(n: nat)
    requires n < 2932897
    ensures Civil.CivilFromDays(n).year < 10000
  {
    var d := Civil.CivilFromDays(n);
    if d.year >= 10000 {
      Civil.DaysBeforeYearMonotone(10000, d.year);
      Civil.DaysBeforeYearClosed(10000);
      Civil.DayOfYearBounds(d);
    }
  }

  /** A number below 10000 prints in at most four digits. */
  lemma {:induction false} NatLength4(n: nat)
    requires n < 10000
    ensures |NatToString(n)| <= 4
  {
    if n >= 10 {
      NatLength4(n / 10);
      assert n / 10 < 1000;
      assert n / 10 >= 100 || |NatToString(n / 10)| <= 2;
    }
  }

  /** What the widget shows and the second it last rendered. */
  datatype State = State(lastUpdateTime: u32, labels: TimeLabels, date: string)

  /** Update: re-render time and date only when the timer's second differs from the last one rendered. */
  function Update(st: State, now: u32, offset: int): (st': State)
    ensures now == st.lastUpdateTime ==> st' == st
    ensures now != st.lastUpdateTime ==>
              st'.lastUpdateTime == now && st'.labels == TimeLabelsOf(LocalTime(now, offset))
              && st'.date == DateLabel(LocalTime(now, offset))
  {
    if now != st.lastUpdateTime then
      var local := LocalTime(now, offset);
      State(now, TimeLabelsOf(local), DateLabel(local))
    else st
  }

  /** A second update at the same timer value changes nothing. */
  lemma {:induction false} UpdateIdempotent(st: State, now: u32, offset: int)
    ensures Update(Update(st, now, offset), now, offset) == Update(st, now, offset)
  {
  }
}
