/**
 The weather widget's value logic: the 16-point compass name of a wind direction,
 the names of the forecast rows (GetDayName), the forecast store (SetForecast)
 and the values UpdateDisplay hands to its labels and images. The timer value and
 the offset GetTimezoneOffset gives for the widget's zone at that time are
 parameters; the current and "feels like" temperatures are floating point and
 are not modelled.
 */
module WeatherWidget {
  import opened Wrappers
  import opened Machine
  import opened Text
  import Civil
  import Clock
  import StringUtils
  import Icons
  import WeatherService

  const MAX_FORECAST_DAYS: nat := 5
  const LOCATION_BUFFER_SIZE: nat := 72
  const WIND_BUFFER_SIZE: nat := 48
  const TEMP_STRING_SIZE: nat := 24
  const CITY_SIZE: nat := 48
  const STATE_SIZE: nat := 16
  const SUN_TIME_SIZE: nat := 16

  /** The UTF-8 bytes of the degree sign. */
  const DEGREE: string := ['\U{C2}', '\U{B0}']

  /** The sixteen compass points, clockwise from north. */
  const COMPASS: seq<string> := ["N", "NNE", "NE", "ENE", "E", "ESE", "SE", "SSE",
                                 "S", "SSW", "SW", "WSW", "W", "WNW", "NW", "NNW"]

  /** The bearing of each compass point, 22.5 degrees apart, rounded down. */
  const BEARINGS: seq<int> := [0, 22, 45, 67, 90, 112, 135, 157, 180, 202, 225, 247, 270, 292, 315, 337]

  // ---------------------------------------------------------------------------
  // WindDirectionToCardinal
  // ---------------------------------------------------------------------------

  /**
   The normalisation of WindDirectionToCardinal: add 360 while negative, then take
   the remainder, which is then C's `%` on a non-negative value.
   */
  function NormalizeDegrees(degrees: int): (d: int)
    ensures 0 <= d < 360 && d == degrees % 360
    decreases if degrees < 0 then -degrees else 0
  {
    if degrees < 0 then NormalizeDegrees(degrees + 360) else degrees % 360
  }

  /** The compass ladder of WindDirectionToCardinal on a direction in 0..359. */
  function CompassName(d: int): (c: string)
    ensures c in COMPASS
  {
    if d >= 349 || d < 11 then "N"
    else if d < 34 then "NNE"
    else if d < 56 then "NE"
    else if d < 79 then "ENE"
    else if d < 101 then "E"
    else if d < 124 then "ESE"
    else if d < 146 then "SE"
    else if d < 169 then "SSE"
    else if d < 191 then "S"
    else if d < 214 then "SSW"
    else if d < 236 then "SW"
    else if d < 259 then "WSW"
    else if d < 281 then "W"
    else if d < 304 then "WNW"
    else if d < 326 then "NW"
    else "NNW"
  }

  /** WindDirectionToCardinal: the compass ladder on the normalised direction. */
  function WindDirectionToCardinal(degrees: int): (c: string)
    ensures c in COMPASS
  {
    CompassName(NormalizeDegrees(degrees))
  }

  /**
   The ladder names the nearest of the sixteen points 22.5 degrees apart: point k
   covers the whole degrees from 22.5k - 11.25 up to 22.5k + 11.25, rounded to the
   nearest degree, which is the point (4d + 46) / 90 modulo 16.
   */
  lemma {:induction false} CardinalIsNearestPoint(degrees: int)
    ensures WindDirectionToCardinal(degrees) == COMPASS[(4 * (degrees % 360) + 46) / 90 % 16]
  {
    NearestPoint(NormalizeDegrees(degrees));
  }

  /** CardinalIsNearestPoint on a normalised direction, one half of the circle at a time. */
  lemma {:induction false} NearestPoint(d: int)
    requires 0 <= d < 360
    ensures CompassName(d) == COMPASS[(4 * d + 46) / 90 % 16]
  {
    if d < 169 { NearestPointEast(d); } else { NearestPointWest(d); }
  }

  /** NearestPoint from north to south-south-east, one sector at a time. */
  lemma {:induction false} NearestPointEast(d: int)
    requires 0 <= d < 169
    ensures CompassName(d) == COMPASS[(4 * d + 46) / 90]
  {
    var k := (4 * d + 46) / 90;
    if d < 11 { assert k == 0; }
    else if d < 34 { assert k == 1; }
    else if d < 56 { assert k == 2; }
    else if d < 79 { assert k == 3; }
    else if d < 101 { assert k == 4; }
    else if d < 124 { assert k == 5; }
    else if d < 146 { assert k == 6; }
    else { assert k == 7; }
  }

  /** NearestPoint from south round to north again, one sector at a time. */
  lemma {:induction false} NearestPointWest(d: int)
    requires 169 <= d < 360
    ensures CompassName(d) == COMPASS[(4 * d + 46) / 90 % 16]
  {
    var k := (4 * d + 46) / 90;
    if d < 191 { assert k == 8; }
    else if d < 214 { assert k == 9; }
    else if d < 236 { assert k == 10; }
    else if d < 259 { assert k == 11; }
    else if d < 281 { assert k == 12; }
    else if d < 304 { assert k == 13; }
    else if d < 326 { assert k == 14; }
    else if d < 349 { assert k == 15; }
    else { assert k == 16; }
  }

  /** The name depends on the direction modulo 360 only, negative directions included. */
  lemma {:induction false} CardinalPeriodic(degrees: int, turns: int)
    ensures WindDirectionToCardinal(degrees + 360 * turns) == WindDirectionToCardinal(degrees)
  {
    assert (degrees + 360 * turns) % 360 == degrees % 360;
    assert NormalizeDegrees(degrees + 360 * turns) == NormalizeDegrees(degrees);
  }

  /** All sixteen names occur, each at its own point's bearing. */
  lemma {:induction false} CardinalCoversCompass(k: int)
    requires 0 <= k < 16
    ensures WindDirectionToCardinal(BEARINGS[k]) == COMPASS[k]
  {
    var b := BEARINGS[k];
    assert NormalizeDegrees(b) == b;
    NearestPoint(b);
    assert (4 * b + 46) / 90 == k by {
      if k < 4 {} else if k < 8 {} else if k < 12 {} else {}
    }
  }

  /** The sixteen names are distinct. */
  lemma {:induction false} CompassDistinct(i: int, j: int)
    requires 0 <= i < 16 && 0 <= j < 16 && i != j
    ensures COMPASS[i] != COMPASS[j]
  {
    if |COMPASS[i]| == |COMPASS[j]| {
      assert COMPASS[i][0] != COMPASS[j][0] || COMPASS[i][|COMPASS[i]| - 1] != COMPASS[j][|COMPASS[j]| - 1]
          || (|COMPASS[i]| == 3 && COMPASS[i][1] != COMPASS[j][1]);
    }
  }

  // ---------------------------------------------------------------------------
  // GetDayName
  // ---------------------------------------------------------------------------

  /**
   The local day number GetDayName uses: the timer value cast to `int`, plus the
   offset, as a 32-bit `int` sum, clamped at 0, in whole days.
   */
  function LocalDays(unixTime: u32, offset: int): (n: nat)
    ensures 0 <= I32(unixTime) + offset < TWO31 ==> n == (I32(unixTime) + offset) / Clock.SECONDS_PER_DAY
    ensures -TWO31 <= I32(unixTime) + offset < 0 ==> n == 0
  {
    var sum := I32(unixTime) + offset;
    var local := I32(U32(sum));
    SmallSumKeeps(sum);
    if local < 0 then 0 else local / Clock.SECONDS_PER_DAY
  }

  /** A sum inside the range of `int` survives the 32-bit wrap unchanged. */
  lemma {:induction false} SmallSumKeeps(x: int)
    ensures -TWO31 <= x < TWO31 ==> I32(U32(x)) == x
  {
    if x < -TWO31 || x >= TWO31 {
    } else if x < 0 {
      assert U32(x) == x + TWO32;
    } else {
      assert U32(x) == x;
    }
  }

  /**
   GetDayName: "Today" and "Tomorrow" for 0 and 1, the short weekday name for later
   days, and None for a negative argument, which indexes `specialNames` out of
   bounds. A zero timer falls back to the name of position (d + 1) mod 7.
   */
  function GetDayName(daysFromToday: int, unixTime: u32, offset: int): (r: Option<string>)
    ensures r.None? <==> daysFromToday < 0
    ensures daysFromToday == 0 ==> r == Some("Today")
    ensures daysFromToday == 1 ==> r == Some("Tomorrow")
    ensures daysFromToday >= 2 ==> r.Some? && r.value in WeatherService.SHORT_DAY_NAMES
  {
    if daysFromToday < 0 then None
    else if daysFromToday < 2 then Some(["Today", "Tomorrow"][daysFromToday])
    else if unixTime == 0 then Some(WeatherService.SHORT_DAY_NAMES[(daysFromToday + 1) % 7])
    else
      var current := (LocalDays(unixTime, offset) + 4) % 7;
      Some(WeatherService.SHORT_DAY_NAMES[(current + daysFromToday) % 7])
  }

  /**
   With a running timer, day d >= 2 is named after the weekday of the local day
   number plus d, the weekday Civil.Weekday gives (1970-01-01 was a Thursday).
   */
  lemma {:induction false} DayNameIsWeekdayAhead(daysFromToday: int, unixTime: u32, offset: int)
    requires daysFromToday >= 2 && unixTime != 0
    ensures GetDayName(daysFromToday, unixTime, offset)
         == Some(WeatherService.SHORT_DAY_NAMES[Civil.Weekday(LocalDays(unixTime, offset) + daysFromToday)])
  {
    var n := LocalDays(unixTime, offset);
    Civil.SameMod7((n + 4) % 7 + daysFromToday, n + daysFromToday + 4, -((n + 4) / 7));
  }

  /** Without a timer value the names are fixed by position: day 2 is "Wed", day 3 "Thu", day 4 "Fri". */
  lemma {:induction false} DayNameWithoutTime(daysFromToday: int, offset: int)
    requires 2 <= daysFromToday <= 4
    ensures GetDayName(daysFromToday, 0, offset) == Some(["Wed", "Thu", "Fri"][daysFromToday - 2])
  {
  }

  // ---------------------------------------------------------------------------
  // The widget's data and SetForecast
  // ---------------------------------------------------------------------------

  /** The modelled fields of WeatherData (temperatures and humidity are not shown by value here). */
  datatype WeatherData = WeatherData(windSpeed: int, windDirection: int, city: string, state: string,
                                     sunsetTime: string, weatherCode: int)

  /** The fields of a ForecastDay the widget reads. */
  datatype ForecastDay = ForecastDay(high: int, low: int, weatherCode: int)

  /** The widget's state: the current data, the five forecast slots and the forecast count. */
  datatype Widget = Widget(data: WeatherData, forecast: seq<ForecastDay>, forecastCount: int)

  /** The strings come from fixed buffers: at most 47, 15 and 15 characters. */
  predicate DataWf(data: WeatherData) {
    |data.city| < CITY_SIZE && |data.state| < STATE_SIZE && |data.sunsetTime| < SUN_TIME_SIZE
  }

  predicate WidgetWf(w: Widget) {
    |w.forecast| == MAX_FORECAST_DAYS && DataWf(w.data)
  }

  /** The constructor's defaults: Dallas, US-TX, wind 5 from 180 degrees, sunset "5:30pm", no forecast. */
  function Initial(): (w: Widget)
    ensures WidgetWf(w) && w.forecastCount == 0
  {
    Widget(WeatherData(5, 180, "Dallas", "US-TX", "5:30pm", 0),
           seq(MAX_FORECAST_DAYS, i => ForecastDay(0, 0, 0)), 0)
  }

  /**
   SetForecast: keeps min(count, 5) entries of `days` in the first slots and leaves
   every other slot as it was. A negative count copies nothing and is stored as is.
   */
  method SetForecast(w: Widget, days: seq<ForecastDay>, count: int) returns (r: Widget)
    requires WidgetWf(w)
    requires (if count > MAX_FORECAST_DAYS then MAX_FORECAST_DAYS else count) <= |days|
    ensures WidgetWf(r) && r.data == w.data
    ensures r.forecastCount == if count > MAX_FORECAST_DAYS then MAX_FORECAST_DAYS else count
    ensures forall i | 0 <= i < r.forecastCount :: r.forecast[i] == days[i]
    ensures forall i | 0 <= i < MAX_FORECAST_DAYS && i >= r.forecastCount :: r.forecast[i] == w.forecast[i]
  {
    var n := if count > MAX_FORECAST_DAYS then MAX_FORECAST_DAYS else count;
    var slots := w.forecast;
    var i := 0;
    while i < n
      invariant 0 <= i <= (if n < 0 then 0 else n) && |slots| == MAX_FORECAST_DAYS
      invariant forall j | 0 <= j < i :: slots[j] == days[j]
      invariant forall j | i <= j < MAX_FORECAST_DAYS :: slots[j] == w.forecast[j]
    {
      slots := slots[i := days[i]];
      i := i + 1;
    }
    r := Widget(w.data, slots, n);
  }

  // ---------------------------------------------------------------------------
  // UpdateDisplay
  // ---------------------------------------------------------------------------

  /** A forecast row: hidden, or shown with its day name, small icon and "H° / L°" text. */
  datatype Row = Hidden | Shown(dayName: Option<string>, icon: Icons.IconRef, temps: string)

  /** What UpdateDisplay hands to the labels and images. */
  datatype Display = Display(location: string, windIcon: Icons.WindIconRef, windText: string,
                             sunset: string, weatherIcon: Icons.IconRef, rows: seq<Row>)

  /** "%.0f° / %.0f°" of the two whole temperatures, in a 24-byte buffer. */
  function TempsText(f: ForecastDay): (t: string)
    ensures |t| <= TEMP_STRING_SIZE - 1
  {
    Truncate(IntToString(f.high) + DEGREE + " / " + IntToString(f.low) + DEGREE, TEMP_STRING_SIZE)
  }

  /** The location line: "CITY, STATE" in the 72-byte buffer, a-z raised to A-Z. */
  function LocationText(data: WeatherData): (t: string)
    ensures |t| <= LOCATION_BUFFER_SIZE - 1
    ensures forall i | 0 <= i < |t| :: !IsLower(t[i])
  {
    StringUtils.LowerUpperNoUpper(Truncate(data.city + ", " + data.state, LOCATION_BUFFER_SIZE));
    StringUtils.ToUpper(Truncate(data.city + ", " + data.state, LOCATION_BUFFER_SIZE))
  }

  /**
   UpdateDisplay, for the timer value and zone offset of the moment: the location,
   the wind icon and "speed direction" text, the sunset text, the current icon
   (always the daytime variant) and the five forecast rows.
   */
  function UpdateDisplay(w: Widget, unixTime: u32, offset: int): (d: Display)
    requires WidgetWf(w)
    ensures |d.rows| == MAX_FORECAST_DAYS
    ensures forall i | 0 <= i < MAX_FORECAST_DAYS :: d.rows[i].Shown? <==> i < w.forecastCount
    ensures d.weatherIcon == Icons.WeatherIcon(w.data.weatherCode, true, false)
    ensures d.windIcon.level == Icons.Beaufort(w.data.windSpeed)
    ensures forall i | 0 <= i < |d.location| :: !IsLower(d.location[i])
  {
    Display(LocationText(w.data),
            Icons.WindIcon(w.data.windSpeed),
            Truncate(IntToString(w.data.windSpeed) + " " + WindDirectionToCardinal(w.data.windDirection), WIND_BUFFER_SIZE),
            w.data.sunsetTime,
            Icons.WeatherIcon(w.data.weatherCode, true, false),
            seq(MAX_FORECAST_DAYS, i requires 0 <= i < MAX_FORECAST_DAYS =>
              if i < w.forecastCount
              then Shown(GetDayName(i, unixTime, offset), Icons.WeatherIcon(w.forecast[i].weatherCode, true, true), TempsText(w.forecast[i]))
              else Hidden))
  }

  /**
   The location never reaches the buffer's end: city and state come from 48- and
   16-byte buffers, so "CITY, STATE" is the whole upper-cased text.
   */
  lemma {:induction false} LocationNotTruncated(data: WeatherData)
    requires DataWf(data)
    ensures LocationText(data) == StringUtils.ToUpper(data.city + ", " + data.state)
    ensures |LocationText(data)| == |data.city| + 2 + |data.state|
  {
    assert |data.city + ", " + data.state| < LOCATION_BUFFER_SIZE;
  }

  /**
   After SetForecast, UpdateDisplay shows exactly the first min(count, 5) rows,
   named "Today", "Tomorrow", ... and drawn with the small icon of the day's code.
   */
  lemma {:induction false} ForecastRowsShown(w: Widget, days: seq<ForecastDay>, count: int, r: Widget, unixTime: u32, offset: int, i: int)
    requires WidgetWf(r) && 0 <= i < MAX_FORECAST_DAYS
    requires (if count > MAX_FORECAST_DAYS then MAX_FORECAST_DAYS else count) <= |days|
    requires r.forecastCount == (if count > MAX_FORECAST_DAYS then MAX_FORECAST_DAYS else count)
    requires forall j | 0 <= j < r.forecastCount :: r.forecast[j] == days[j]
    ensures var row := UpdateDisplay(r, unixTime, offset).rows[i];
      (row.Shown? <==> i < count)
      && (row.Shown? ==> row.icon == Icons.WeatherIcon(days[i].weatherCode, true, true)
                         && row.dayName.Some?
                         && (i == 0 ==> row.dayName == Some("Today"))
                         && (i == 1 ==> row.dayName == Some("Tomorrow")))
  {
  }

  /** The default widget shows "DALLAS, US-TX" and no forecast row. */
  lemma {:induction false} InitialDisplay(unixTime: u32, offset: int)
    ensures var d := UpdateDisplay(Initial(), unixTime, offset);
      d.location == "DALLAS, US-TX" && forall i | 0 <= i < MAX_FORECAST_DAYS :: d.rows[i] == Hidden
  {
    LocationNotTruncated(Initial().data);
    assert StringUtils.ToUpper("Dallas, US-TX") == "DALLAS, US-TX";
  }

  /** The default wind of 5 from 180 degrees reads "5 S". */
  lemma {:induction false} InitialWindText(unixTime: u32, offset: int)
    ensures UpdateDisplay(Initial(), unixTime, offset).windText == "5 S"
  {
    assert WindDirectionToCardinal(180) == "S";
    assert NatToString(5) == "5";
  }
}
