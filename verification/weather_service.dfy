/**
 The weather service's reading of an Open-Meteo response body: the WMO weather
 code and its condition text, the first sunrise and sunset as 12-hour clock
 text, and the codes and day names of up to five forecast days. The body is
 scanned with `strstr`/`strchr` from key to key, never parsed as JSON.

 Temperatures, humidity, wind speed and wind direction are floating-point
 readings (`strtof`) and are outside the model; the weather code is read as the
 integer part of its number text, which is what `(int)strtof(…)` gives for the
 plain decimal numbers Open-Meteo sends.
 */
module WeatherService {
  import opened Wrappers
  import opened Text
  import Scan
  import Clock
  import Icons

  const CONDITION_SIZE: nat := 32
  const TIME_SIZE: nat := 16
  const MAX_FORECAST: nat := 5
  const SHORT_DAY_NAMES: seq<string> := ["Sun", "Mon", "Tue", "Wed", "Thu", "Fri", "Sat"]

  // ---------------------------------------------------------------------------
  // Condition text
  // ---------------------------------------------------------------------------

  /** The condition text of a WMO code, by the first matching bound. */
  function Condition(code: int): (c: string)
    ensures |c| < CONDITION_SIZE
  {
    if code == 0 then "Clear"
    else if code <= 3 then "Partly Cloudy"
    else if code <= 49 then "Foggy"
    else if code <= 59 then "Drizzle"
    else if code <= 69 then "Rain"
    else if code <= 79 then "Snow"
    else if code <= 84 then "Showers"
    else if code <= 94 then "Snow Showers"
    else "Thunderstorm"
  }

  /** The icon families a condition text describes. */
  predicate Describes(c: string, f: Icons.Family) {
    match f
    case ClearDay | ClearNight => c == "Clear"
    case PartlyCloudyDay | PartlyCloudyNight => c == "Partly Cloudy"
    case Fog => c == "Foggy"
    case Drizzle => c == "Drizzle"
    case Rain => c == "Rain" || c == "Showers"
    case Snow => c == "Snow" || c == "Snow Showers"
    case Thunderstorm => c == "Thunderstorm"
    case Cloudy => false
  }

  /** The codes of WMO code table 4677 that Open-Meteo reports. */
  predicate IsOpenMeteoCode(code: int) {
    code in {0, 1, 2, 3, 45, 48, 51, 53, 55, 56, 57, 61, 63, 65, 66, 67, 71, 73, 75, 77, 80, 81, 82, 85, 86, 95, 96, 99}
  }

  /**
   The condition text and the weather icon disagree exactly on the codes 49, 58-59,
   68-69, 78-79, 83-84 and 87-94, none of which Open-Meteo reports: for every code
   it does report, the text describes the icon shown.
   */
  lemma {:induction false} ConditionMatchesIcon(code: int, isDay: bool, small: bool)
    ensures !Describes(Condition(code), Icons.WeatherIcon(code, isDay, small).family)
            <==> code in {49, 58, 59, 68, 69, 78, 79, 83, 84} || 87 <= code <= 94
    ensures IsOpenMeteoCode(code) ==> Describes(Condition(code), Icons.WeatherIcon(code, isDay, small).family)
  {
  }

  // ---------------------------------------------------------------------------
  // Numbers and the sunrise and sunset clock text
  // ---------------------------------------------------------------------------

  /** `(int)strtof(s + p)` for decimal number text: the signed integer part, 0 when there is none. */
  function IntPart(s: string, p: nat): (v: int)
  {
    if p > |s| then 0
    else
      var r := Scan.ScanInt(s, p, |s| + 1);
      if r.None? then 0 else r.value.0
  }

  /** A `%d` conversion: like ScanInt but with no width limit. */
  function ScanD(s: string, p: nat): (r: Option<(int, nat)>)
    ensures r.Some? ==> p < r.value.1 <= |s|
  {
    if p > |s| then None else Scan.ScanInt(s, p, |s| + 1)
  }

  /** `sscanf(t, "%d:%d", &hour, &minute) == 2` at position p. */
  function HourMinute(s: string, p: nat): (r: Option<(int, int)>)
  {
    var h := ScanD(s, p);
    if h.None? || At(s, h.value.1) != ':' then None
    else
      var m := ScanD(s, h.value.1 + 1);
      if m.None? then None else Some((h.value.0, m.value.0))
  }

  /** The clock text kept for an hour and minute: "h:MMam"/"h:MMpm" when both are in range, else empty. */
  function SunText(hm: Option<(int, int)>): (t: string)
    ensures |t| < TIME_SIZE
    ensures hm.Some? && 0 <= hm.value.0 <= 23 && 0 <= hm.value.1 <= 59 ==> t == Clock.ClockText(hm.value.0, hm.value.1)
    ensures !(hm.Some? && 0 <= hm.value.0 <= 23 && 0 <= hm.value.1 <= 59) ==> t == []
  {
    if hm.Some? && 0 <= hm.value.0 <= 23 && 0 <= hm.value.1 <= 59 then
      var t := Clock.ClockText(hm.value.0, hm.value.1);
      assert |Pad2(hm.value.1)| == 2;
      t
    else []
  }

  /**
   The sunrise or sunset reading: after the key (searched from the "daily" position),
   the first '[', then the first '"', then the first 'T', an "%d:%d" reading.
   */
  function SunReading(s: string, daily: nat, key: string): (hm: Option<(int, int)>)
  {
    var k := Find(s, key, daily);
    if k.None? then None
    else
      var a := FindChar(s, '[', k.value);
      if a.None? then None else FirstTime(s, a.value)
  }

  /** The "%d:%d" reading after the first 'T' that follows the first '"' at or after p. */
  function FirstTime(s: string, p: nat): (hm: Option<(int, int)>)
  {
    var q := FindChar(s, '"', p);
    if q.None? then None
    else
      var tt := FindChar(s, 'T', q.value + 1);
      if tt.None? then None else HourMinute(s, tt.value + 1)
  }

  /** The sunrise or sunset text: the clock text of the reading, empty without one. */
  function SunField(s: string, daily: nat, key: string): (t: string)
    ensures |t| < TIME_SIZE
  {
    SunText(SunReading(s, daily, key))
  }

  /** Two digits followed by a non-digit read as one `%d` number. */
  lemma {:induction false} ScanTwoDigits(s: string, p: nat)
    requires p + 2 <= |s| && IsDigit(s[p]) && IsDigit(s[p + 1]) && !IsDigit(At(s, p + 2))
    ensures ScanD(s, p) == Some((DigitValue(s[p]) * 10 + DigitValue(s[p + 1]), p + 2))
  {
    assert Scan.SkipSpace(s, p) == p;
    var d := DigitValue(s[p]) * 10 + DigitValue(s[p + 1]);
    assert Scan.ReadDigits(s, p + 2, |s| - 1, d) == (d, p + 2);
    assert Scan.ReadDigits(s, p + 1, |s|, DigitValue(s[p])) == (d, p + 2);
    assert Scan.ReadDigits(s, p, |s| + 1, 0) == (d, p + 2);
  }

  /** `HH:MM` at p: two digits, a ':', two digits, then a non-digit. */
  predicate IsClockText(s: string, p: nat) {
    p + 5 <= |s| && s[p + 2] == ':'
    && IsDigit(s[p]) && IsDigit(s[p + 1]) && IsDigit(s[p + 3]) && IsDigit(s[p + 4]) && !IsDigit(At(s, p + 5))
  }

  /** The hour and minute the `HH:MM` text at p names. */
  function ClockValue(s: string, p: nat): (int, int)
    requires IsClockText(s, p)
  {
    (DigitValue(s[p]) * 10 + DigitValue(s[p + 1]), DigitValue(s[p + 3]) * 10 + DigitValue(s[p + 4]))
  }

  /**
   A key found after "daily" whose array opens with `"` and whose first value holds
   `T` then `HH:MM` reads as that hour and minute; SunText then keeps their clock
   text when they name a time of day.
   */
  lemma {:induction false} SunFieldReads(s: string, daily: nat, key: string, k: nat, a: nat, t: nat)
    requires Find(s, key, daily) == Some(k) && FindChar(s, '[', k) == Some(a)
    requires a + 1 < |s| && s[a + 1] == '"' && FindChar(s, 'T', a + 2) == Some(t)
    requires IsClockText(s, t + 1)
    ensures SunReading(s, daily, key) == Some(ClockValue(s, t + 1))
  {
    SunReadingAt(s, daily, key, k, a);
    assert FindChar(s, '"', a) == Some(a + 1);
    FirstTimeAt(s, a, a + 1, t);
    HourMinuteDigits(s, t + 1);
  }

  /** SunReading reads the first value of the array the key opens. */
  lemma {:induction false} SunReadingAt(s: string, daily: nat, key: string, k: nat, a: nat)
    requires Find(s, key, daily) == Some(k) && FindChar(s, '[', k) == Some(a)
    ensures SunReading(s, daily, key) == FirstTime(s, a)
  {
  }

  /** FirstTime reads after the first 'T' that follows the first '"'. */
  lemma {:induction false} FirstTimeAt(s: string, p: nat, q: nat, t: nat)
    requires FindChar(s, '"', p) == Some(q) && FindChar(s, 'T', q + 1) == Some(t)
    ensures FirstTime(s, p) == HourMinute(s, t + 1)
  {
  }

  /** `HH:MM` text reads as the hour and minute it names. */
  lemma {:induction false} HourMinuteDigits(s: string, p: nat)
    requires IsClockText(s, p)
    ensures HourMinute(s, p) == Some(ClockValue(s, p))
  {
    ScanTwoDigits(s, p);
    ScanTwoDigits(s, p + 3);
  }

  // ---------------------------------------------------------------------------
  // ParseCurrentWeather
  // ---------------------------------------------------------------------------

  /** The modelled fields of WeatherData after parsing. */
  datatype Current = Current(isMetric: bool, weatherCode: int, condition: string, sunrise: string, sunset: string)

  /** The record after `memset(0)` and the copy of the unit flag. */
  function Zeroed(isMetric: bool): Current {
    Current(isMetric, 0, [], [], [])
  }

  /** ExtractInt: the integer part of the number after the key's first following ':' and any spaces. */
  function ExtractInt(s: string, from: nat, key: string): (r: Option<int>)
  {
    var k := Find(s, key, from);
    if k.None? then None
    else
      var c := FindChar(s, ':', k.value);
      if c.None? then None else Some(IntPart(s, c.value + 1))
  }

  /** ParseCurrentWeather: fails only without "current"; every field it cannot find stays zero. */
  function ParseCurrentWeather(s: string, isMetric: bool): (r: (bool, Current))
    ensures r.0 <==> Contains(s, "\"current\"")
    ensures !r.0 ==> r.1 == Zeroed(isMetric)
    ensures r.1.isMetric == isMetric
    ensures r.1.condition == [] || r.1.condition == Condition(r.1.weatherCode)
  {
    FindContains(s, "\"current\"");
    var cur := Find(s, "\"current\"", 0);
    if cur.None? then (false, Zeroed(isMetric))
    else
      var code := ExtractInt(s, cur.value, "\"weather_code\"");
      var withCode := if code.Some? then Current(isMetric, code.value, Condition(code.value), [], [])
                      else Zeroed(isMetric);
      var daily := Find(s, "\"daily\"", 0);
      var rise := if daily.Some? then SunField(s, daily.value, "\"sunrise\"") else [];
      var sunset := if daily.Some? then SunField(s, daily.value, "\"sunset\"") else [];
      (true, withCode.(sunrise := rise, sunset := sunset))
  }

  /** A weather code found after "current" sets both the code and its condition text. */
  lemma {:induction false} CurrentCondition(s: string, isMetric: bool, c: nat)
    requires Find(s, "\"current\"", 0) == Some(c)
    requires ExtractInt(s, c, "\"weather_code\"").Some?
    ensures var r := ParseCurrentWeather(s, isMetric);
            r.0 && r.1.weatherCode == ExtractInt(s, c, "\"weather_code\"").value
            && r.1.condition == Condition(r.1.weatherCode)
  {
    FindContains(s, "\"current\"");
  }

  // ---------------------------------------------------------------------------
  // ParseForecast
  // ---------------------------------------------------------------------------

  /** The modelled fields of one forecast day (the temperatures are floating point). */
  datatype ForecastDay = ForecastDay(dayName: string, weatherCode: int)

  /** Skips spaces and newlines, and double quotes when `quotes` holds. */
  function SkipFill(s: string, p: nat, quotes: bool): (q: nat)
    ensures p <= q && (q <= |s| || q == p)
    ensures At(s, q) != ' ' && At(s, q) != '\n' && (quotes ==> At(s, q) != '"')
    decreases |s| - p
  {
    var c := At(s, p);
    if c == ' ' || c == '\n' || (quotes && c == '"') then SkipFill(s, p + 1, quotes) else p
  }

  /** The forecast day i gets: the fixed name `dayNames[(i + 1) % 7]` and the code read at the code cursor, 0 without one. */
  function DayOf(s: string, i: nat, code: Option<nat>): (d: ForecastDay)
    ensures d.dayName == SHORT_DAY_NAMES[(i + 1) % 7]
    ensures code.None? ==> d.weatherCode == 0
  {
    var wc := if code.Some? && At(s, code.value) != ']' then IntPart(s, code.value) else 0;
    ForecastDay(SHORT_DAY_NAMES[(i + 1) % 7], wc)
  }

  /** Days are named by position only, and carry code 0 when there is no code array. */
  predicate Named(days: seq<ForecastDay>, codes: bool) {
    forall k | 0 <= k < |days| :: days[k].dayName == SHORT_DAY_NAMES[(k + 1) % 7] && (!codes ==> days[k].weatherCode == 0)
  }

  /** The four array cursors of the forecast loop; the code cursor is absent without a code array. */
  datatype Cursors = Cursors(mx: nat, mn: nat, code: Option<nat>, tm: nat)

  /** Skips the filler in front of every cursor's next value. */
  function SkipAll(s: string, c: Cursors): (c': Cursors)
    ensures c'.code.Some? <==> c.code.Some?
  {
    Cursors(SkipFill(s, c.mx, true), SkipFill(s, c.mn, true),
            if c.code.Some? then Some(SkipFill(s, c.code.value, false)) else None,
            SkipFill(s, c.tm, true))
  }

  /** Any of the max, min and time arrays is closed. */
  predicate AtEnd(s: string, c: Cursors) {
    At(s, c.mx) == ']' || At(s, c.mn) == ']' || At(s, c.tm) == ']'
  }

  /**
   Every cursor moved past its next ','; None when the max, min or time text has
   no further ','. A code cursor without a further ',' stays where it is.
   */
  function Advance(s: string, c: Cursors): (n: Option<Cursors>)
    ensures n.Some? ==> (n.value.code.Some? <==> c.code.Some?)
  {
    var nMax := FindChar(s, ',', c.mx);
    var nMin := FindChar(s, ',', c.mn);
    var nCode := if c.code.Some? then FindChar(s, ',', c.code.value) else None;
    var nTime := FindChar(s, ',', c.tm);
    if nMax.None? || nMin.None? || nTime.None? then None
    else Some(Cursors(nMax.value + 1, nMin.value + 1, if nCode.Some? then Some(nCode.value + 1) else c.code, nTime.value + 1))
  }

  /** Appending the day of position |days| keeps the days named by position. */
  lemma {:induction false} NamedAppend(days: seq<ForecastDay>, s: string, code: Option<nat>, codes: bool)
    requires Named(days, codes) && (code.Some? <==> codes)
    ensures Named(days + [DayOf(s, |days|, code)], codes)
  {
  }

  /**
   The loop over up to five days: skip filler on each cursor, stop at a ']', take
   the day, then move every cursor past its next ','; a missing ',' in the max,
   min or time text ends the loop after this day.
   */
  function ForecastLoop(s: string, i: nat, c: Cursors, acc: seq<ForecastDay>): (r: seq<ForecastDay>)
    requires i <= MAX_FORECAST && |acc| == i
    requires Named(acc, c.code.Some?)
    ensures i <= |r| <= MAX_FORECAST && r[..i] == acc
    ensures Named(r, c.code.Some?)
    decreases MAX_FORECAST - i
  {
    if i == MAX_FORECAST then acc
    else
      var c := SkipAll(s, c);
      if AtEnd(s, c) then acc
      else
        NamedAppend(acc, s, c.code, c.code.Some?);
        var acc' := acc + [DayOf(s, i, c.code)];
        var n := Advance(s, c);
        if n.None? then acc'
        else
          var r := ForecastLoop(s, i + 1, n.value, acc');
          assert r[..i] == r[..i + 1][..i];
          r
  }

  /** ParseForecast: the forecast days and whether there is at least one. */
  function ParseForecast(s: string): (r: (bool, seq<ForecastDay>))
    ensures r.0 <==> |r.1| > 0
    ensures |r.1| <= MAX_FORECAST
    ensures !Contains(s, "\"daily\"") ==> !r.0
    ensures forall k | 0 <= k < |r.1| :: r.1[k].dayName == SHORT_DAY_NAMES[(k + 1) % 7]
  {
    FindContains(s, "\"daily\"");
    var daily := Find(s, "\"daily\"", 0);
    if daily.None? then (false, [])
    else
      var maxT := Find(s, "\"temperature_2m_max\"", daily.value);
      var minT := Find(s, "\"temperature_2m_min\"", daily.value);
      var codes := Find(s, "\"weather_code\"", daily.value);
      var times := Find(s, "\"time\"", daily.value);
      if maxT.None? || minT.None? || times.None? then (false, [])
      else
        var mxA := FindChar(s, '[', maxT.value);
        var mnA := FindChar(s, '[', minT.value);
        var cdA := if codes.Some? then FindChar(s, '[', codes.value) else None;
        var tmA := FindChar(s, '[', times.value);
        if mxA.None? || mnA.None? || tmA.None? then (false, [])
        else
          var code := if cdA.Some? then Some(cdA.value + 1) else None;
          var days := ForecastLoop(s, 0, Cursors(mxA.value + 1, mnA.value + 1, code, tmA.value + 1), []);
          (|days| > 0, days)
  }

  /** Without a maximum, minimum or time array there is no forecast; only the code array is optional. */
  lemma {:induction false} ForecastNeedsArrays(s: string)
    requires !Contains(s, "\"temperature_2m_max\"") || !Contains(s, "\"temperature_2m_min\"") || !Contains(s, "\"time\"")
    ensures !ParseForecast(s).0 && ParseForecast(s).1 == []
  {
    var daily := Find(s, "\"daily\"", 0);
    if daily.Some? {
      if !Contains(s, "\"temperature_2m_max\"") {
        NotContainedNotFound(s, "\"temperature_2m_max\"", daily.value);
      } else if !Contains(s, "\"temperature_2m_min\"") {
        NotContainedNotFound(s, "\"temperature_2m_min\"", daily.value);
      } else {
        NotContainedNotFound(s, "\"time\"", daily.value);
      }
    }
  }

  /** Without a weather_code array every forecast day gets code 0 (clear). */
  lemma {:induction false} MissingCodesAreClear(s: string)
    requires !Contains(s, "\"weather_code\"")
    ensures forall k | 0 <= k < |ParseForecast(s).1| :: ParseForecast(s).1[k].weatherCode == 0
  {
    var daily := Find(s, "\"daily\"", 0);
    if daily.Some? {
      NotContainedNotFound(s, "\"weather_code\"", daily.value);
    }
  }

  // ---------------------------------------------------------------------------
  // FetchWeather and FetchForecast
  // ---------------------------------------------------------------------------

  /**
   FetchWeather, given the body the HTTPS GET of the current-weather path
   returned, or None when it failed: a failed request leaves the caller's data
   as it was; a body is parsed as the C string it is, up to its first NUL.
   */
  function FetchWeather(fetched: Option<string>, isMetric: bool, previous: Current): (r: (bool, Current))
    ensures fetched.None? ==> r == (false, previous)
    ensures fetched.Some? ==> r == ParseCurrentWeather(CStr(fetched.value), isMetric)
    ensures fetched.Some? && 0 as char !in fetched.value ==> r == ParseCurrentWeather(fetched.value, isMetric)
    ensures r.0 <==> fetched.Some? && Contains(CStr(fetched.value), "\"current\"")
  {
    if fetched.None? then (false, previous)
    else
      ParseCurrentWeather(CStr(fetched.value), isMetric)
  }

  /**
   FetchForecast, given the body of the HTTPS GET of the forecast path, or None:
   a failed request leaves the caller's days as they were; a body is parsed up to
   its first NUL.
   */
  function FetchForecast(fetched: Option<string>, previous: seq<ForecastDay>): (r: (bool, seq<ForecastDay>))
    ensures fetched.None? ==> r == (false, previous)
    ensures fetched.Some? ==> r == ParseForecast(CStr(fetched.value))
    ensures fetched.Some? && 0 as char !in fetched.value ==> r == ParseForecast(fetched.value)
    ensures r.0 ==> fetched.Some? && Contains(CStr(fetched.value), "\"daily\"")
  {
    if fetched.None? then (false, previous)
    else
      ParseForecast(CStr(fetched.value))
  }

  /** What a weather or forecast body holds after a NUL never reaches the parsers. */
  lemma {:induction false} FetchIgnoresAfterNul(body: string, tail: string, isMetric: bool, current: Current,
                                                days: seq<ForecastDay>)
    ensures FetchWeather(Some(body + [0 as char] + tail), isMetric, current) == FetchWeather(Some(body), isMetric, current)
    ensures FetchForecast(Some(body + [0 as char] + tail), days) == FetchForecast(Some(body), days)
  {
    CStrStopsAtNul(body, tail);
  }

  /** A body that starts with a NUL fails both requests and leaves everything zero. */
  lemma {:induction false} LeadingNulFails(tail: string, isMetric: bool, current: Current, days: seq<ForecastDay>)
    ensures FetchWeather(Some([0 as char] + tail), isMetric, current) == (false, Zeroed(isMetric))
    ensures FetchForecast(Some([0 as char] + tail), days) == (false, [])
  {
    CStrStopsAtNul([], tail);
    assert [] + [0 as char] + tail == [0 as char] + tail;
    assert !Contains([], "\"current\"");
    assert !Contains([], "\"daily\"");
  }

  // ---------------------------------------------------------------------------
  // ExtractString
  // ---------------------------------------------------------------------------

  /**
   ExtractString: the text between the first '"' after the first ':' that follows
   the key and the next '"', cut to maxLen - 1 characters.
   */
  function ExtractString(s: string, key: string, maxLen: nat): (r: Option<string>)
    requires maxLen >= 1
    ensures r.Some? ==> |r.value| <= maxLen - 1 && '"' !in r.value
  {
    var k := Find(s, key, 0);
    if k.None? then None
    else
      var c := FindChar(s, ':', k.value);
      if c.None? then None
      else
        var v := QuotedFrom(s, c.value);
        if v.None? then None else Some(Truncate(v.value, maxLen))
  }

  /** The text between the first '"' at or after p and the next '"'. */
  function QuotedFrom(s: string, p: nat): (r: Option<string>)
    ensures r.Some? ==> '"' !in r.value
  {
    var q := FindChar(s, '"', p);
    if q.None? then None
    else
      var e := FindChar(s, '"', q.value + 1);
      if e.None? then None
      else
        var v := s[q.value + 1..e.value];
        assert forall i | 0 <= i < |v| :: v[i] == s[q.value + 1 + i];
        Some(v)
  }

  /** A key (starting with a character pre lacks) followed by `:"v"` with a quote-free v gives v, cut to the buffer. */
  lemma {:induction false} ExtractStringOf(pre: string, key: string, v: string, rest: string, maxLen: nat)
    requires maxLen >= 1 && |key| > 0 && key[0] !in pre
    requires ':' !in key && '"' !in v
    ensures ExtractString(pre + key + ([':', '"'] + v + ['"'] + rest), key, maxLen) == Some(Truncate(v, maxLen))
  {
    var tail := [':', '"'] + v + ['"'] + rest;
    var s := pre + key + tail;
    var i := |pre|;
    var c := i + |key|;
    KeyFirstAt(pre, key, tail, 0);
    assert s[i..c] == key && s[c..] == tail;
    assert s[c] == ':' && s[c + 1] == '"' && s[c + 2 + |v|] == '"';
    assert s[c + 2..c + 2 + |v|] == tail[2..2 + |v|] == v;
    ExtractStringAt(s, key, i, v, maxLen);
  }

  /** ExtractString at a first key occurrence i followed directly by `:"v"`. */
  lemma {:induction false} ExtractStringAt(s: string, key: string, i: nat, v: string, maxLen: nat)
    requires maxLen >= 1 && ':' !in key && '"' !in v
    requires Find(s, key, 0) == Some(i)
    requires i + |key| + 2 + |v| < |s| && s[i..i + |key|] == key
    requires s[i + |key|] == ':' && s[i + |key| + 1] == '"'
    requires s[i + |key| + 2..i + |key| + 2 + |v|] == v && s[i + |key| + 2 + |v|] == '"'
    ensures ExtractString(s, key, maxLen) == Some(Truncate(v, maxLen))
  {
    var c := i + |key|;
    ColonAfter(s, i, key);
    assert FindChar(s, '"', c) == Some(c + 1);
    QuotedUpTo(s, c + 2, v);
    assert QuotedFrom(s, c) == Some(v);
  }

  /** The first ':' at or after a colon-free key at i is the character after it. */
  lemma {:induction false} ColonAfter(s: string, i: nat, key: string)
    requires i + |key| < |s| && s[i..i + |key|] == key && ':' !in key && s[i + |key|] == ':'
    ensures FindChar(s, ':', i) == Some(i + |key|)
  {
    forall t | i <= t < i + |key| ensures s[t] != ':' {
      assert s[t] == s[i..i + |key|][t - i];
    }
  }

  /** The first '"' at or after the start of a quote-free v followed by '"' is the one after v. */
  lemma {:induction false} QuotedUpTo(s: string, q: nat, v: string)
    requires q + |v| < |s| && s[q..q + |v|] == v && '"' !in v && s[q + |v|] == '"'
    ensures FindChar(s, '"', q) == Some(q + |v|)
  {
    forall t | q <= t < q + |v| ensures s[t] != '"' {
      assert s[t] == s[q..q + |v|][t - q];
    }
  }

  /** A key whose first character does not occur in pre is first found right after pre. */
  lemma {:induction false} KeyFirstAt(pre: string, key: string, tail: string, from: nat)
    requires |key| > 0 && key[0] !in pre && from <= |pre|
    ensures Find(pre + key + tail, key, from) == Some(|pre|)
    decreases |pre| - from
  {
    var s := pre + key + tail;
    if from < |pre| {
      assert s[from..from + |key|][0] == pre[from];
      KeyFirstAt(pre, key, tail, from + 1);
    } else {
      assert s[from..from + |key|] == key;
    }
  }
}
