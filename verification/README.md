# magic-mirror core, modelled in Dafny

A model of the deterministic core of the magic-mirror wall-display firmware. The firmware is bare-metal C++ for the Raspberry Pi, built on Circle and LVGL, and the repository includes its icon asset script. The model covers:

- iCalendar ingestion;
- the civil-calendar and time-zone arithmetic the widgets share;
- the JSON parser and the hand-written key scanners;
- the string helpers and both HTTP clients;
- the widgets' value logic;
- the framebuffer and layout geometry;
- the icon encoder.

Hardware, the network, LVGL drawing and floating point become parameters or are left out, as listed below. Every C `unsigned` wrap, every out-of-bounds table read and every loop that cannot end is written out explicitly.

The modules follow the source files:

| file | module | models |
|---|---|---|
| civil.dfy | Civil | the proleptic Gregorian calendar: the single reference every copy of the date arithmetic is proved against |
| machine.dfy | Machine | 32-bit `unsigned` and `int` arithmetic and C's truncating division |
| wrappers.dfy | Wrappers | `Option` and `Result` |
| text.dfy | Text | C-string helpers: `strstr`, `strchr`, `strncmp`, `atoi` and decimal rendering |
| scan.dfy | Scan | the `sscanf` `%Nd` conversions the ICS parser uses |
| stoi.dfy | Stoi | `std::stoi` in bases 10 and 16, including its exceptions |
| clock.dfy | Clock | the 12-hour clock text the widgets and the weather service print |
| timestamp.dfy | Timestamp | DateToTimestamp, DateToTimestampHelper and TimestampToDate of src/services/ics_stream_parser.cpp |
| weekdays.dfy | Weekdays | Zeller's congruence, the Nth weekday of a month, and the US and EU summer-time windows |
| ics_rrule.dfy | IcsRRule | ParseRRule, ParseDayAbbrev and ParseInt |
| ics_props.dfy | IcsProps | FindProperty, ParseTimezoneOffset, ParseDateTime, ParseEvent and IsEventInWindow |
| ics_expand.dfy | IcsExpand | ExpandRecurringEvent, NormalizeDate and AdvanceMonth |
| ics_stream.dfy | IcsStream | FeedData, ProcessBuffer and Finish of the streaming parser |
| events.dfy | Events | the CalendarEvent record |
| posix_tz.dfy | PosixTz | GetPosixTz, ParsePosixRule, CalculateOffset and GetTimezoneOffset of src/config/config.cpp |
| config.dfy | Configuration | the defaults, the JSON scanners and the parsing part of LoadFromFile |
| json.dfy, json_lemmas.dfy | Json, JsonLemmas | src/utils/json.cpp and its properties |
| string_utils.dfy | StringUtils | src/utils/string_utils.cpp |
| http_client.dfy | HttpClient | src/services/http_client.cpp |
| socket_http.dfy | SocketHttp | src/utils/http_client.cpp |
| weather_service.dfy | WeatherService | the response reading of src/services/weather_service.cpp |
| geocoding.dfy | Geocoding | the response reading of src/services/geocoding_service.cpp |
| update_service.dfy | UpdateService | src/services/update_service.cpp over a file system held as a map |
| calendar_service.dfy | CalendarService | src/services/calendar_service.cpp |
| calendar_widget.dfy | CalendarWidget | the value logic of src/modules/widgets/calendar_widget.cpp |
| upcoming_events.dfy | UpcomingEvents | the value logic of src/modules/widgets/upcoming_events_widget.cpp |
| datetime_widget.dfy | DateTimeWidget | src/modules/widgets/datetime_widget.cpp |
| weather_widget.dfy | WeatherWidget | the value logic of src/modules/widgets/weather_widget.cpp |
| widget_base.dfy | WidgetBase | src/modules/widgets/widget_base.cpp |
| display.dfy | Display | include/ui/display.h and src/ui/display.cpp |
| grid.dfy | GridLayout | src/ui/grid.cpp |
| icons.dfy | Icons | scripts/convert_icons.py and the lookup functions it emits |

Where the source computes something other than what it evidently intends, the model holds both versions:

- the code as written, with a lemma that exhibits the discrepancy;
- the corrected definition, with the intended property proved.

The rest of the model uses the corrected definition, as listed under "## Findings". Where a loop in the source never ends, the model says so as a result (`Hangs`, `Halted`, `Unfinished`) rather than assuming it away.

## Model

| member | source | states |
|---|---|---|
| Display.Gray | include/ui/display.h:15 | a gray colour has equal red, green and blue channels set to the given level and is opaque |
| Display.FromRGB | include/ui/display.h:16 | the colour keeps the three given channels and is opaque |
| Display.FromRGBA | include/ui/display.h:17 | the colour keeps all four given channels |
| Display.ToARGB8888 | include/ui/display.h:19 | the packed word is below 2^24 exactly when the colour is fully transparent |
| Display.ARGBChannels | include/ui/display.h:19 | each of the four channels reads back from its byte of the packed word |
| Display.ARGBInjective | include/ui/display.h:19 | two colours that pack to the same word are the same colour |
| Display.NamedColors | include/ui/display.h:13-14 | black and white are opaque; black packs to 0xFF000000 and white to 0xFFFFFFFF |
| Display.Inset | src/ui/display.cpp:13-16 | every edge moves inwards by the amount, so the right and bottom edges move by the same amount as the left and top |
| Display.InsetCompose | src/ui/display.cpp:8-16 | two insets add up, and a point inside an inward inset is inside the original rectangle |
| Display.EmptyRect | src/ui/display.cpp:8-11 | a rectangle with zero or negative width or height contains no point |
| Display.Initialize | src/ui/display.cpp:31-46 | initialisation succeeds exactly when there is a screen device and it has a frame buffer |
| Display.BlendBound | src/ui/display.cpp:73-98 | a blended channel lies between the source and destination values |
| Display.Paint | src/ui/display.cpp:73-98 | an opaque colour overwrites the pixel, a transparent one leaves it, a translucent one stores the per-channel blend with the old pixel, opaque |
| Display.PaintBetween | src/ui/display.cpp:80-96 | a translucent paint leaves the pixel opaque, with each channel between the colour's and the old pixel's |
| Display.SetPixel | src/ui/display.cpp:73-98 | the frame keeps its shape; only the pixel at (x, y) changes, to the given value |
| Display.DrawPixel | src/ui/display.cpp:73-98 | an off-screen pixel changes nothing; an on-screen one becomes the paint of the colour over it and no other pixel changes |
| Display.Clear | src/ui/display.cpp:48-66 | without a frame buffer nothing changes; otherwise every pixel holds the packed colour, except that black stores 0 |
| Display.ClearShowsColor | src/ui/display.cpp:48-66 | after a clear, every pixel shows the colour's red, green and blue |
| Display.ClearBlackStoresZero | src/ui/display.cpp:54-58 | clearing to black stores 0, not the 0xFF000000 that black packs to |
| Display.Clip | src/ui/display.cpp:114-117 | the clipped bounds lie on the screen and hold exactly the on-screen points the rectangle contains |
| Display.FillRect | src/ui/display.cpp:112-135 | every on-screen pixel inside the rectangle becomes the paint of the colour over it; every other pixel is unchanged |
| Display.DrawRows | src/ui/display.cpp:100-105 | the loop over the top and bottom rows changes no other pixel; an opaque colour lands on every on-screen pixel of those rows; a transparent one changes nothing |
| Display.DrawColumns | src/ui/display.cpp:106-109 | the loop over the left and right columns changes no other pixel; an opaque colour lands on every on-screen pixel of those columns; a transparent one changes nothing |
| Display.DrawRect | src/ui/display.cpp:100-110 | only pixels on the rectangle's outline change; an opaque colour lands on every on-screen outline pixel; a transparent one changes nothing |
| GridLayout.Quot | src/ui/grid.cpp:19-20 | C's `/` truncates toward zero: for a non-negative dividend it is the floor quotient |
| GridLayout.NewLayout | src/ui/grid.cpp:5-21 | the grid keeps its configuration, and each cell size is the available width or height divided by the number of cells, rounded down |
| GridLayout.GetCellRect | src/ui/grid.cpp:23-32 | the rectangle starts at the padding plus whole cell-and-gap steps, and a span covers its cells and the gaps between them |
| GridLayout.NeighboursOneGapApart | src/ui/grid.cpp:23-32 | the next cell to the right starts exactly one gap after the end of this one, at the same height and width |
| GridLayout.SpansAdd | src/ui/grid.cpp:23-32 | a span of a + b columns is a span of a, one gap, and the span of b that follows |
| GridLayout.LastColumnFits | src/ui/grid.cpp:5-32 | when the padding and gaps fit, a span ending at the last column stays inside the right padding, and one more pixel per cell would not fit |
| GridLayout.DefaultLayoutCells | src/ui/grid.cpp:14-20 | a 1920 x 1080 screen with 12 x 8 cells, 30-pixel padding and 15-pixel gaps has cells of 141 x 114 |
| GridLayout.DrawDebugGrid | src/ui/grid.cpp:34-42 | only pixels on some cell's outline change, and a transparent colour changes nothing |
| WidgetBase.NewWidget | src/modules/widgets/widget_base.cpp:5-29 | a new widget covers one cell at the origin of a 1920 x 1080 screen, is visible, and has zero bounds until a position is set |
| WidgetBase.Place | src/modules/widgets/widget_base.cpp:98-118 | the container, when there is one, takes the given position and pixel size |
| WidgetBase.UpdateBounds | src/modules/widgets/widget_base.cpp:98-118 | the container matches the new bounds, and the grid position, screen size and visibility do not change |
| WidgetBase.BoundsAreGridCell | src/modules/widgets/widget_base.cpp:98-118 | the widget's bounds are the rectangle that the 12 x 16 layout grid gives its cell and span |
| WidgetBase.DefaultScreenCells | src/modules/widgets/widget_base.cpp:98-118 | on the default screen a widget cell is 152 x 60 pixels |
| WidgetBase.SetGridPosition | src/modules/widgets/widget_base.cpp:39-46 | the position is recorded and the container follows the new bounds |
| WidgetBase.SetScreenSize | src/modules/widgets/widget_base.cpp:48-53 | the screen size is recorded and the container follows the new bounds |
| WidgetBase.PositionAndSizeCommute | src/modules/widgets/widget_base.cpp:39-53 | setting the grid position and the screen size in either order places the widget alike |
| WidgetBase.SetAbsolutePosition | src/modules/widgets/widget_base.cpp:55-66 | the bounds are stored exactly as given and applied to the container; the grid position is kept |
| WidgetBase.GridOverridesAbsolute | src/modules/widgets/widget_base.cpp:48-66 | an absolute position is forgotten the next time the screen size is set |
| WidgetBase.SetContentSize | src/modules/widgets/widget_base.cpp:68-75 | the container takes the full width and the height of its content; nothing else changes |
| WidgetBase.SetFillHeight | src/modules/widgets/widget_base.cpp:77-84 | the container takes the full width and grows to fill its column; its height setting and everything else are kept |
| WidgetBase.SetVisible | src/modules/widgets/widget_base.cpp:86-96 | the flag is recorded and the container is hidden exactly when the widget is not visible; nothing else changes |
| WidgetBase.SetVisibleLastWins | src/modules/widgets/widget_base.cpp:86-96 | of two visibility changes, the last one wins |
| Icons.Rgb565 | scripts/convert_icons.py:42-43 | the value fits in 16 bits and holds the top 5, 6 and 5 bits of red, green and blue at bits 15-11, 10-5 and 4-0 |
| Icons.Rgb565Disjoint | scripts/convert_icons.py:42-43 | the shifted fields do not overlap, so `|` adds them and each reads back by shift and mask |
| Icons.ExpandFallsShort | scripts/convert_icons.py:42-43 | packing loses at most the low 3, 2 and 3 bits of red, green and blue |
| Icons.Composite | scripts/convert_icons.py:60-64 | compositing onto black never brightens a channel; an opaque pixel keeps it and a transparent one becomes 0 |
| Icons.PixelValue | scripts/convert_icons.py:58-65 | a pixel's value fits in 16 bits, and a fully transparent pixel is 0 |
| Icons.LowHigh | scripts/convert_icons.py:66-67 | the low byte comes first, then the high byte, and together they give the value back |
| Icons.EncodePixels | scripts/convert_icons.py:58-67 | the pixel loop emits two bytes per pixel |
| Icons.DecodeEncoded | scripts/convert_icons.py:58-67 | reading the emitted bytes back in low/high pairs gives every pixel's RGB565 value, in order |
| Icons.DecodeEncodedValues | scripts/convert_icons.py:66-67 | reading pairs back inverts the two-bytes-per-value encoding |
| Icons.Convert | scripts/convert_icons.py:45-70 | an icon of size x size has that width and height, a stride of two bytes per pixel, and 2 x size x size bytes of data |
| Icons.WeatherIcon | scripts/convert_icons.py:247-284 | an icon is always chosen, in the requested size; the clear and partly cloudy families are chosen exactly for codes up to 3 |
| Icons.DayOnlyForClearSkies | scripts/convert_icons.py:251-258 | day and night give different icons exactly for codes up to 3 |
| Icons.WeatherIconDescriptor | scripts/convert_icons.py:132-172 | the small variant of a weather icon is 28 x 28 and the large 56 x 56, with a stride of 2w and 2w^2 bytes |
| Icons.Beaufort | scripts/convert_icons.py:287-303 | the force is at most 12 |
| Icons.BeaufortCountsBounds | scripts/convert_icons.py:291-303 | the force is the number of scale bounds the speed exceeds |
| Icons.BeaufortMonotone | scripts/convert_icons.py:291-303 | a faster wind never gets a lower force |
| Icons.WindIcon | scripts/convert_icons.py:287-320 | the wind icon shows the Beaufort force of the speed, so the `default` case is never taken |
| Civil.DaysInYear | src/services/ics_stream_parser.cpp:339-367 | a year has 366 days exactly when it is a leap year, otherwise 365 |
| Civil.DaysInMonth | src/services/ics_stream_parser.cpp:551-557 | a month has 28 to 31 days, and 29 exactly for February of a leap year |
| Civil.LongMonth | src/config/config.cpp:51-85 | March and October have 31 days in every year |
| Civil.SameYearOrder | src/services/ics_stream_parser.cpp:370-389 | within one year the day number orders dates by month, then by day |
| Civil.NextMonthStart | src/services/ics_stream_parser.cpp:560-578 | the first of the next month comes one whole month after the first of this one, also across the year's end |
| Civil.CivilFromDays | src/services/ics_stream_parser.cpp:339-367 | every non-negative day number has a valid date from 1970 on whose day number it is |
| Civil.CivilRoundTrip | src/services/ics_stream_parser.cpp:339-389 | the walk from 1970 recovers every valid date on or after 1 January 1970 from its day number |
| Civil.DaysFromCivilInjective | src/services/ics_stream_parser.cpp:370-389 | two valid dates from 1970 on with the same day number are the same date |
| Civil.ZellerIsWeekday | src/services/ics_stream_parser.cpp:541-548 | Zeller's congruence, reduced by a true modulo, names the same weekday as the day count from 1970 |
| Timestamp.YearLoopSum | src/services/ics_stream_parser.cpp:376-379 | the year loop adds exactly the days of the years it walks over |
| Timestamp.MonthLoopSum | src/services/ics_stream_parser.cpp:381-385 | the month loop adds exactly the days of the months it walks over, with February's leap day |
| Timestamp.DayCountIsCivil | src/services/ics_stream_parser.cpp:370-389 | for a valid date from 1970 on, the day count is the calendar's day number, modulo 2^32 |
| Timestamp.HelperIsCivil | src/services/ics_stream_parser.cpp:77-92 | DateToTimestampHelper is the calendar's day number times 86400, modulo 2^32 |
| Timestamp.DateToTimestampIsCivil | src/services/ics_stream_parser.cpp:370-389 | DateToTimestamp is the day number times 86400 plus the time of day, modulo 2^32 |
| Timestamp.HelperIsDateToTimestamp | src/services/ics_stream_parser.cpp:77-92 | the `int` helper and the `unsigned` function agree at midnight for every month from 1 to 13 |
| Timestamp.TimestampToDateIsCivil | src/services/ics_stream_parser.cpp:339-367 | TimestampToDate gives the calendar date of the timestamp's whole days since 1970 |
| Timestamp.TimestampToDateValid | src/services/ics_stream_parser.cpp:339-367 | every timestamp gives a valid date with a year from 1970 on |
| Timestamp.DateRoundTrip | src/services/ics_stream_parser.cpp:339-389 | a valid date whose midnight fits in 32 bits converts to a timestamp and back to itself |
| Timestamp.TimestampRoundTrip | src/services/ics_stream_parser.cpp:339-389 | every timestamp splits into a date and a time of day that convert back to the same timestamp |
| Weekdays.ZellerAsWritten | src/services/ics_stream_parser.cpp:541-548 | Zeller's sum computed in `unsigned`, as written, still yields a value in 0..6 |
| Weekdays.DayOfWeekAsWritten | src/modules/widgets/calendar_widget.cpp:469-484 | the weekday as written is always in 0..6 (Sunday = 0) |
| Weekdays.DayOfWeekCorrected | src/services/ics_stream_parser.cpp:541-548 | with the sum reduced by a true modulo, the result is the true weekday of the date |
| Weekdays.AsWrittenAgrees | src/services/ics_stream_parser.cpp:541-548 | when Zeller's sum does not go negative, the `unsigned` copy gives the true weekday |
| Weekdays.NoWrap2020To2099 | src/services/ics_stream_parser.cpp:541-548 | from 2020 to 2099 the sum never goes negative, so the copies as written give the true weekday there |
| Weekdays.AsWrittenWrapsOn2019March1 | src/services/ics_stream_parser.cpp:541-548 | on 1 March 2019 the sum is -1 and wraps: the code gives Tuesday for that Friday |
| Weekdays.FirstWeekday | src/services/ics_stream_parser.cpp:887-891 | the weekday of the first of the month is in 0..6 |
| Weekdays.NthWeekdayAsWrittenAgrees | src/services/ics_stream_parser.cpp:881-904 | from 2020 to 2099 the helper as written, on top of the wrapping weekday, gives the same day as the corrected one |
| Weekdays.SecondSundayOfMarch2019 | src/services/ics_stream_parser.cpp:881-904 | the second Sunday of March 2019 is the 10th, but the helper as written gives the 13th |
| Weekdays.FirstOccurrence | src/services/ics_stream_parser.cpp:887-893 | the first day of the month with the weekday is one of days 1..7 and has that weekday (counted from the true weekday of the first) |
| Weekdays.WeekdayInMonth | src/services/ics_stream_parser.cpp:887-893 | the weekday of day d follows from the weekday of the first of the month |
| Weekdays.NthWeekdayIsNth | src/services/ics_stream_parser.cpp:881-904 | for weeks 1..4 the day is the week-th occurrence of the weekday; for week 5 it is the last; it always lies in the month and has the weekday (counted from the true weekday of the first) |
| Weekdays.NthWeekdayWeekday | src/services/ics_stream_parser.cpp:881-904 | the day the helper gives has the requested weekday (counted from the true weekday of the first) |
| Weekdays.NthWeekdayForRRuleSpec | src/services/ics_stream_parser.cpp:236-249 | counted from the true weekday of the first, the RRULE helper gives 0 or a day of the month with the weekday: week n > 0 is the n-th occurrence or 0 past the month's end, -1 the last, other weeks the first |
| Weekdays.NthWeekdayForRRuleAsWrittenAgrees | src/services/ics_stream_parser.cpp:218-249 | from 2020 to 2099 the RRULE helper as written, with its own `unsigned` Zeller sum, gives the same day as the one counted from the true weekday |
| Weekdays.SecondSundayForRRule2019 | src/services/ics_stream_parser.cpp:227-234 | for BYDAY=2SU in March 2019 the second Sunday is the 10th, but the RRULE helper as written answers the 13th, a Wednesday |
| Weekdays.WindowOrder | src/services/ics_stream_parser.cpp:907-932 | the month-by-month test of the summer-time helpers is the day-number interval from the start day up to the end day |
| Weekdays.UsDstWindow | src/services/ics_stream_parser.cpp:907-918 | US summer time runs from the second Sunday of March (day 8..14) up to, not including, the first Sunday of November (day 1..7) (counted from the true weekday of the first) |
| Weekdays.LastSundayOf31 | src/services/ics_stream_parser.cpp:881-904 | in March and October the last Sunday falls on day 25..31 (counted from the true weekday of the first) |
| Weekdays.EuDstWindow | src/services/ics_stream_parser.cpp:921-932 | EU summer time runs from the last Sunday of March up to, not including, the last Sunday of October (counted from the true weekday of the first) |
| IcsRRule.ParseDayAbbrev | src/services/ics_stream_parser.cpp:46-56 | the weekday (0 = Sunday) whose two-letter name starts at the position, and -1 exactly when no day name starts there |
| IcsRRule.DayAbbrevRoundTrip | src/services/ics_stream_parser.cpp:46-56 | a day name followed by anything reads back as its weekday |
| IcsRRule.ParseInt | src/services/ics_stream_parser.cpp:59-74 | the position moves exactly when a sign or a digit is there, and it stops at a non-digit |
| IcsRRule.ParseIntRoundTrip | src/services/ics_stream_parser.cpp:59-74 | a number written in decimal and followed by a non-digit reads back as itself, with the position just past it |
| IcsRRule.SkipParam | src/services/ics_stream_parser.cpp:211-213 | the next parameter starts after the next ';' (or at the end); the position always moves unless the value has ended |
| IcsRRule.UntilIsEndOfDay | src/services/ics_stream_parser.cpp:130-136 | UNTIL on a real date from 1970 on is the first second of the following day |
| IcsRRule.ByDayStep | src/services/ics_stream_parser.cpp:140-168 | one pass of the BYDAY loop changes only the weekday set and the entry list: a day read without a week number (or with week 0) joins the set, one with a week leaves it unchanged, a day is listed with its week while the list has room, and no day name changes nothing |
| IcsRRule.DayNameAt | src/services/ics_stream_parser.cpp:46-56 | a two-letter day name at the position reads as exactly its weekday |
| IcsRRule.PlainDayStep | src/services/ics_stream_parser.cpp:140-168 | a bare day name followed by a comma or the end adds its weekday to the set and lists it with week 0, moving past the comma |
| IcsRRule.NumberedDayStep | src/services/ics_stream_parser.cpp:140-168 | a day name after a non-zero week number, such as the FR of -1FR, is listed with that week and stays out of the weekday set |
| IcsRRule.ByDayStepStalls | src/services/ics_stream_parser.cpp:140-168 | the BYDAY loop body fails to move exactly at a position with no number, no day name and no comma, and there it changes nothing |
| IcsRRule.ByDayStepWf | src/services/ics_stream_parser.cpp:140-168 | the BYDAY loop keeps a rule within its array bounds |
| IcsRRule.ByDayList | src/services/ics_stream_parser.cpp:137-169 | the BYDAY list either ends at ';' or the end of the value with a well-formed rule that differs only by more weekdays and more entries, or stalls at a position the loop cannot leave |
| IcsRRule.ByMonthList | src/services/ics_stream_parser.cpp:170-182 | BYMONTH only adds months 1..12 to the month set and changes nothing else |
| IcsRRule.ByMonthDayList | src/services/ics_stream_parser.cpp:183-195 | BYMONTHDAY only adds to the month-day list and changes nothing else |
| IcsRRule.ByMonthDayFirst | src/services/ics_stream_parser.cpp:186-192 | a BYMONTHDAY number read as 0 is skipped; any other is stored, as a `signed char`, after the days already there while there is room; a number in -128..127 is stored unchanged |
| IcsRRule.MonthDay256StoresZero | src/services/ics_stream_parser.cpp:188-189 | BYMONTHDAY=256 passes the non-zero test but is stored in the `signed char` array as 0 |
| IcsRRule.ParamStep | src/services/ics_stream_parser.cpp:111-213 | one parameter is consumed and the rule stays well formed, or the loop hangs at a stuck BYDAY position, or the read runs past the value |
| IcsRRule.Params | src/services/ics_stream_parser.cpp:111-214 | the parameter loop yields a well-formed rule, or names the stuck position where it would loop for ever |
| IcsRRule.ParseRRule | src/services/ics_stream_parser.cpp:94-217 | a parsed rule is well formed; a hang is reported at a position where the BYDAY loop body reads nothing |
| IcsRRule.ParamStepFreq | src/services/ics_stream_parser.cpp:112-118 | one pass changes the frequency only at a "FREQ=" parameter, to the name read there or, for an unknown name, to the frequency it had |
| IcsRRule.ParamsFreq | src/services/ics_stream_parser.cpp:111-214 | the parameter loop never loses a known frequency, and gains one only from a "FREQ=" in the value that names DAILY, WEEKLY, MONTHLY or YEARLY |
| IcsRRule.AcceptedIsKnownFreq | src/services/ics_stream_parser.cpp:215 | ParseRRule's boolean holds for a parsed value starting with FREQ=DAILY, WEEKLY, MONTHLY or YEARLY, and holds only when some FREQ= in the value names one of the four |
| IcsRRule.HourlyNotAccepted | src/services/ics_stream_parser.cpp:112-118 | FREQ=HOURLY parses to the default rule, whose frequency is none, so it is not accepted |
| IcsRRule.IntervalParam | src/services/ics_stream_parser.cpp:119-124 | INTERVAL= sets the interval to the number read, or to 1 when it reads as 0, and parsing continues after it |
| IcsRRule.ByDayHangs | src/services/ics_stream_parser.cpp:137-169 | a BYDAY value starting with a character that is no number, day name or comma makes the parser loop for ever |
| IcsRRule.ByDayListCorrected | src/services/ics_stream_parser.cpp:137-169 | with an unreadable character skipped, the BYDAY list always ends at the ';' or the end of the value, and the rule stays well formed |
| IcsRRule.ByDayListCorrectedAgrees | src/services/ics_stream_parser.cpp:137-169 | wherever the code's BYDAY loop finishes, the corrected list reads the same rule and stops at the same place |
| IcsProps.LineEnd | src/services/ics_stream_parser.cpp:1118-1137 | the value runs up to the first CR or LF, or the end of the block |
| IcsProps.NextLine | src/services/ics_stream_parser.cpp:1147-1153 | the next line starts strictly later |
| IcsProps.PropertyValue | src/services/ics_stream_parser.cpp:1102-1157 | a line gives a value exactly when it starts with the property's name and ':' or ';'; the value fits the buffer |
| IcsProps.FindProperty | src/services/ics_stream_parser.cpp:1102-1157 | the value found fits in the caller's buffer, terminator included |
| IcsProps.FindPropertyIsFirstLine | src/services/ics_stream_parser.cpp:1102-1157 | there is no value exactly when no line of the block names the property; otherwise it is the value of the first line that does |
| IcsProps.FindPropertyFromSpec | src/services/ics_stream_parser.cpp:1102-1157 | the loop from any line start with no earlier match finds the first matching line, or none exactly when there is none |
| IcsProps.AbbreviationOffset | src/services/ics_stream_parser.cpp:938-948 | the exact abbreviations give whole-hour offsets from -10 h to +2 h |
| IcsProps.UsDstZoneOffset | src/services/ics_stream_parser.cpp:950-970 | the US summer-time zones give whole-hour offsets in range |
| IcsProps.EuropeOffset | src/services/ics_stream_parser.cpp:979-993 | the European names give offsets in range, and every unknown name is UTC |
| IcsProps.TimezoneOffsetAsWritten | src/services/ics_stream_parser.cpp:935-994 | the table as written gives a whole-hour offset from -10 h to +2 h |
| IcsProps.TimezoneOffset | src/services/ics_stream_parser.cpp:935-994 | with the Hawaii test moved earlier, every Hawaii or Honolulu name that is not an abbreviation gets -10 h |
| IcsProps.TimezoneOffsetAgrees | src/services/ics_stream_parser.cpp:935-994 | for a name mentioning neither Hawaii nor Pacific/Honolulu, the corrected table gives what the code gives |
| IcsProps.HonoluluAsWritten | src/services/ics_stream_parser.cpp:964-976 | as written, "Pacific/Honolulu" gets the US Pacific offset (-8 h, -7 h in US summer) instead of -10 h |
| IcsProps.HonoluluIsUsPacific | src/services/ics_stream_parser.cpp:964-966 | "Pacific/Honolulu" contains "Pacific", so it hits the US Pacific test |
| IcsProps.HonoluluCorrected | src/services/ics_stream_parser.cpp:975-976 | with the correction, "Pacific/Honolulu" is -10 h all year |
| IcsProps.TzidName | src/services/ics_stream_parser.cpp:1003-1016 | the zone name after "TZID=" fits the 64-character buffer |
| IcsProps.DateValue | src/services/ics_stream_parser.cpp:1018-1030 | the date-time text is a part of the value |
| IcsProps.ParseStamp | src/services/ics_stream_parser.cpp:1032-1099 | an 8-character stamp, or one without 'T' after the date, is all-day; otherwise the all-day flag from the parameters is kept |
| IcsProps.OffsetOnDate | src/services/ics_stream_parser.cpp:1089-1091 | the offset applied to a zoned time is a whole-hour offset in range, taken on the event's own date with its fields passed as unsigned |
| IcsProps.ZoneToUtc | src/services/ics_stream_parser.cpp:1087-1094 | the UTC time is the local time less the offset, modulo 2^32 |
| IcsProps.ParseDateTime | src/services/ics_stream_parser.cpp:996-1100 | "VALUE=DATE" among the parameters makes the result all-day |
| IcsProps.DateTextScans | src/services/ics_stream_parser.cpp:1040 | a written YYYYMMDD date scans back as its year, month and day |
| IcsProps.DateTimeTextScans | src/services/ics_stream_parser.cpp:1065 | a written YYYYMMDDTHHMMSS stamp scans back as its six fields |
| IcsProps.LocalTimestampIsCivil | src/services/ics_stream_parser.cpp:1068-1085 | the seconds count built from the six fields is the day number times 86400 plus the time of day, modulo 2^32 |
| IcsProps.NoParams | src/services/ics_stream_parser.cpp:1018-1030 | without ':' the whole value is the stamp, with no zone and not all-day |
| IcsProps.UtcStampParses | src/services/ics_stream_parser.cpp:1061-1096 | a UTC stamp ending in 'Z' parses to its calendar timestamp, not all-day |
| IcsProps.DateOnlyParses | src/services/ics_stream_parser.cpp:1032-1059 | a date-only value parses to midnight UTC of that day, all-day |
| IcsProps.TzidStampParses | src/services/ics_stream_parser.cpp:1003-1096 | a TZID stamp parses to its local time shifted by that zone's offset on its date |
| IcsProps.ZoneToUtcShifts | src/services/ics_stream_parser.cpp:1087-1094 | shifting a wrapped local count equals subtracting the offset from the exact count, then wrapping |
| IcsProps.TzidParams | src/services/ics_stream_parser.cpp:1003-1030 | in ";TZID=name:stamp" the zone is the name cut to 63 characters, the stamp is what follows ':', and it is not all-day |
| IcsProps.UtcStampRoundTrip | src/services/ics_stream_parser.cpp:339-367 | every timestamp, written as a UTC stamp, parses back to itself |
| IcsProps.YearBelow10000 | src/services/ics_stream_parser.cpp:339-367 | a 32-bit timestamp falls before the year 10000, so its year always fits `%04d` |
| IcsProps.CalendarColorSetting | src/services/ics_stream_parser.cpp:270-274 | the parser keeps a prefix of the colour, at most 15 characters |
| IcsProps.ParseEvent | src/services/ics_stream_parser.cpp:844-876 | an event is parsed exactly when the block has both SUMMARY and DTSTART; its title is the SUMMARY value and its text fields fit their buffers |
| IcsProps.NoEndMeansInstant | src/services/ics_stream_parser.cpp:862-869 | without a DTEND line the event ends when it starts |
| IcsProps.EventColorIsCalendarColor | src/services/ics_stream_parser.cpp:871-873 | the event's colour is the first seven characters of the colour given to the parser |
| IcsProps.AllDayWindowSpec | src/services/ics_stream_parser.cpp:525-538 | for a non-empty window, an all-day event is in it exactly when some instant of the window falls on the event's UTC day |
| IcsProps.DayOfMonotone | src/services/ics_stream_parser.cpp:527-535 | a later instant never falls on an earlier UTC day |
| IcsProps.TimedInWindowIsAllDayInWindow | src/services/ics_stream_parser.cpp:525-538 | a timed event in the window is also in it when read as all-day |
| IcsExpand.NormalizeForward | src/services/ics_stream_parser.cpp:562-569 | the forward carry leaves a month in 1..12 and a positive day within it |
| IcsExpand.NormalizeDate | src/services/ics_stream_parser.cpp:560-578 | the result is a month in 1..12 and a day within that month |
| IcsExpand.NormalizeForwardKeepsDay | src/services/ics_stream_parser.cpp:562-569 | the forward carry keeps the day number when the year does not wrap |
| IcsExpand.NormalizeDateSpec | src/services/ics_stream_parser.cpp:560-578 | the normalised date is a valid date with the same day number as the input |
| IcsExpand.AdvanceMonth | src/services/ics_stream_parser.cpp:581-588 | the month never ends above 12 |
| IcsExpand.AdvanceMonthAdds | src/services/ics_stream_parser.cpp:581-588 | without a wrap, the month count 12 * year + month grows by exactly the interval, and the month stays in 1..12 |
| IcsExpand.AdvanceWholeYears | src/services/ics_stream_parser.cpp:581-588 | an interval of whole years leaves the month where it was |
| IcsExpand.AdvanceMonthWraps | src/services/ics_stream_parser.cpp:581-588 | an interval of 2^32 - 1 wraps January to month 0 |
| IcsExpand.MakePlan | src/services/ics_stream_parser.cpp:590-620 | the end is the earlier of the window's end and UNTIL, the instance limit the smaller of 500 and COUNT, and the duration the base event's |
| IcsExpand.WeekStart | src/services/ics_stream_parser.cpp:633-645 | the start of the week is a real month and a positive day |
| IcsExpand.ClampDay | src/services/ics_stream_parser.cpp:719-732 | the day is the base day, or the month's last day when the base day does not fit |
| IcsExpand.PeriodOf | src/services/ics_stream_parser.cpp:621-732 | a period gives at most 32 candidates, and a MONTHLY period is skipped exactly when BYMONTH is given and leaves the month out |
| IcsExpand.SortAscendingSpec | src/services/ics_stream_parser.cpp:734-744 | the insertion sort yields an ascending permutation of the candidates |
| IcsExpand.InsertAscendingSpec | src/services/ics_stream_parser.cpp:735-743 | inserting into an ascending list keeps it ascending and adds exactly the new element |
| IcsExpand.SelectSetPos | src/services/ics_stream_parser.cpp:746-760 | BYSETPOS 0 keeps all candidates; otherwise at most one of them remains |
| IcsExpand.SelectSetPosRank | src/services/ics_stream_parser.cpp:746-760 | a BYSETPOS in range keeps the candidate of that rank, counted from the front when positive and from the back when negative |
| IcsExpand.Instance | src/services/ics_stream_parser.cpp:763-810 | an instance is the base event moved to the candidate start, with the base duration, title, colours and all-day flag |
| IcsExpand.Advance | src/services/ics_stream_parser.cpp:813-836 | there is no next period exactly when the frequency is none of the four |
| IcsExpand.ExpandLoop | src/services/ics_stream_parser.cpp:621-841 | the loop only appends, emits no more than it counts, keeps the count within the limit, and keeps every emitted event an instance |
| IcsExpand.ExpandRecurringEvent | src/services/ics_stream_parser.cpp:590-842 | no more events are emitted than counted, never more than 500 and never more than COUNT |
| IcsExpand.ExpandedInstancesGood | src/services/ics_stream_parser.cpp:763-810 | every emitted event is an instance of the base event: on a candidate at or after the base start, not after the end, not excluded, and in the window |
| IcsExpand.EmitCountsEveryCandidate | src/services/ics_stream_parser.cpp:763-790 | every candidate inside the base start and the end counts toward the limit, and none stops the loop |
| IcsExpand.EmitInRange | src/services/ics_stream_parser.cpp:763-810 | one candidate inside the base start and the end counts once and does not stop the loop |
| IcsExpand.MonthlyUnreachableByMonth | src/services/ics_stream_parser.cpp:663-669 | a MONTHLY rule whose whole-year interval never reaches a BYMONTH month never finishes |
| IcsExpand.JuneFromJanuaryNeverEnds | src/services/ics_stream_parser.cpp:663-669 | a January event with FREQ=MONTHLY;INTERVAL=12;BYMONTH=6 never finishes expanding |
| IcsExpand.AdvanceStepsDays | src/services/ics_stream_parser.cpp:815-823 | DAILY and WEEKLY move to a valid date exactly the interval (or 7 times it) days later |
| IcsExpand.AdvanceNormalizes | src/services/ics_stream_parser.cpp:815-823 | DAILY and WEEKLY add the step to the day and normalise the date |
| IcsStream.NewParser | src/services/ics_stream_parser.cpp:251-280 | a new parser has an empty buffer, no events, no recorded dates, zero counters, a prefix of the colour and the given window |
| IcsStream.Emit | src/services/ics_stream_parser.cpp:441-446 | the callback gets the events in order and the event counter counts each one; nothing else changes |
| IcsStream.RecordRecurrenceId | src/services/ics_stream_parser.cpp:427-440 | a RECURRENCE-ID date is appended when it scans and there is room; the 64-entry list never overflows |
| IcsStream.DateEnd | src/services/ics_stream_parser.cpp:490 | the date ends at the first ',', CR or LF before the line's end |
| IcsStream.ExdateLines | src/services/ics_stream_parser.cpp:465-496 | the EXDATE lines only add dates, and never past 64 |
| IcsStream.Exclusions | src/services/ics_stream_parser.cpp:455-496 | the exclusions are the recorded RECURRENCE-ID dates, then EXDATE dates, 64 at most |
| IcsStream.EmitIfInWindow | src/services/ics_stream_parser.cpp:441-446 | the event is emitted exactly when it is in the window |
| IcsStream.Override | src/services/ics_stream_parser.cpp:427-447 | an override records its date and is emitted exactly when it is in the window |
| IcsStream.Plain | src/services/ics_stream_parser.cpp:500-510 | a non-recurring event is emitted when in the window and otherwise counted as skipped |
| IcsStream.Recurring | src/services/ics_stream_parser.cpp:452-499 | expanding a recurring event only appends events and changes neither the buffer, the recorded dates nor the skip counter |
| IcsStream.RuleOf | src/services/ics_stream_parser.cpp:450-454 | a parsed rule is well formed, and a block without RRULE reads as a rule with no frequency |
| IcsStream.HandleEvent | src/services/ics_stream_parser.cpp:419-512 | handling one event only appends to the output and leaves the buffer alone |
| IcsStream.ProcessBuffer | src/services/ics_stream_parser.cpp:391-523 | the buffer ends with no complete event left and never grows; a buffer holding a complete event shrinks |
| IcsStream.Finish | src/services/ics_stream_parser.cpp:329-336 | a last pass over the buffer leaves no complete event in it |
| IcsStream.DropOversized | src/services/ics_stream_parser.cpp:312-325 | a full buffer loses everything through the first END:VEVENT, or everything when there is none |
| IcsStream.FeedData | src/services/ics_stream_parser.cpp:288-327 | feeding data only appends events and leaves no complete event in the buffer; feeding nothing changes nothing |
| IcsStream.NoStartLeavesTail | src/services/ics_stream_parser.cpp:396-405 | without BEGIN:VEVENT only the last 20 characters are kept |
| IcsStream.UnfinishedEventSettles | src/services/ics_stream_parser.cpp:408-417 | an event without its end moves to the front of the buffer and waits |
| IcsStream.OverflowDropsEverything | src/services/ics_stream_parser.cpp:312-325 | when processing leaves the buffer full, it holds no END:VEVENT, so the whole buffer is dropped |
| IcsStream.SmallChunkIsOneStep | src/services/ics_stream_parser.cpp:294-311 | a chunk that fits is appended and processed in one step |
| IcsStream.RecurringAvoidsRecordedDates | src/services/ics_stream_parser.cpp:460-498 | no instance emitted for a recurring event falls on a date an override recorded earlier |
| IcsStream.RecurringEmits | src/services/ics_stream_parser.cpp:455-498 | a recurring event emits instances of itself that avoid the exclusion list, which holds every recorded override date |
| PosixTz.LookupFrom | src/config/config.cpp:228-236 | the table search from entry i finds the first entry whose name contains the given name, and none exactly when no later entry's name contains it |
| PosixTz.GetPosixTzSpec | src/config/config.cpp:226-243 | a name gets the TZ string of the first table entry whose name contains it; a name no entry contains is used itself when it looks like a TZ string, else "UTC0" |
| PosixTz.ChicagoZone | src/config/config.cpp:21-48 | "America/Chicago" is mapped to the US Central TZ string |
| PosixTz.EmptyNameIsEastern | src/config/config.cpp:233-235 | every entry's name contains the empty name, so an empty zone gets US Eastern time rather than UTC |
| PosixTz.SkipStdName | src/config/config.cpp:124 | the standard name ends at the first digit, sign or end of string, and holds none of them |
| PosixTz.SkipOffset | src/config/config.cpp:135 | the offset runs over digits and colons and stops at the first other character |
| PosixTz.SkipDstName | src/config/config.cpp:142 | the daylight name ends at the first digit, sign, ',' or end of string |
| PosixTz.ReadOffset | src/config/config.cpp:126-135 | reading an offset never moves backwards and stays within the string |
| PosixTz.OneDigitOffset | src/config/config.cpp:126-133 | an unsigned one-digit offset means that many hours west of UTC |
| PosixTz.NegativeOneDigitOffset | src/config/config.cpp:128-133 | a one-digit offset after '-' means that many hours east of UTC |
| PosixTz.ParseRules | src/config/config.cpp:155-163 | when both rules are present, the start rule follows a ',' after the daylight part, holds no ',', and the end rule follows the next ',' |
| PosixTz.ParseDaylight | src/config/config.cpp:141-163 | after the daylight name and offset, the zone has rules only when two ','-separated rules follow, placed as ParseRules states |
| PosixTz.ParseZone | src/config/config.cpp:120-163 | a zone with daylight rules has the start rule before the end rule, both inside the string |
| PosixTz.ZoneOfScans | src/config/config.cpp:120-163 | when the scans find a daylight name without an offset and two rules, the daylight offset is the standard one plus an hour |
| PosixTz.CentralZone | src/config/config.cpp:120-163 | "CST6CDT,M3.2.0,M11.1.0" is 6 hours west, with daylight 5 hours west, and its rules start at positions 8 and 15 |
| PosixTz.CetZone | src/config/config.cpp:120-163 | "CET-1CEST,M3.5.0,M10.5.0/3" is one hour east, with daylight two hours east, and its rules start at positions 10 and 17 |
| PosixTz.RuleDots | src/config/config.cpp:93-106 | the two '.' of an "Mm.w.d" rule are found, in order, after its 'M' |
| PosixTz.RuleAt | src/config/config.cpp:98-108 | reading the three fields leaves the position just after the second '.' |
| PosixTz.RuleOfDigits | src/config/config.cpp:93-108 | a rule of one- or two-digit month and one-digit week and weekday reads as those numbers |
| PosixTz.CentralRules | src/config/config.cpp:89-117 | the US Central rules are the second Sunday of March and the first Sunday of November, and name no hour |
| PosixTz.CetRules | src/config/config.cpp:89-117 | the Central European rules are the last Sunday of March and the last Sunday of October |
| PosixTz.Hour | src/config/config.cpp:110-114 | only a '/' before the next ',' gives the hour; where no ',' follows, as for an end rule, this is the code's search |
| PosixTz.CetHours | src/config/config.cpp:110-114 | the code's '/' search from the Central European start rule finds the end rule's "/3", so spring starts at 03:00 where the rule means 02:00 |
| PosixTz.RuleDay | src/config/config.cpp:89-117 | a rule's day is undefined exactly when its month indexes past the 12-month table; a rule not starting with 'M' gives day 0 |
| PosixTz.ParsePosixRule | src/config/config.cpp:89-117 | the corrected rule reader gives a day exactly when the code's does, and the same day |
| PosixTz.TransitionOfRule | src/config/config.cpp:178-179 | a rule with a month in range changes over on the day GetNthWeekday gives that year, at the hour read |
| PosixTz.DayOfYear | src/config/config.cpp:186-193 | a transition's day of the year exists exactly for months 1..12 |
| PosixTz.YearAndDay | src/config/config.cpp:166-174 | the year loop gives a year from 1970 to 2106 and a day within it that together make the timestamp's day number |
| PosixTz.SundayOfYear | src/config/config.cpp:178-193 | the week-th Sunday of a month, as a 0-based day of the year, lies within the year |
| PosixTz.UsSundays | src/config/config.cpp:51-85 | the US transitions fall on days 66..73 and 304..311 of the year |
| PosixTz.EuSundays | src/config/config.cpp:51-85 | the last Sundays of March and October fall on days 83..90 and 297..304 of the year |
| PosixTz.CentralWindow | src/config/config.cpp:176-193 | every year, the US Central window runs from the second Sunday of March to the first Sunday of November, at 02:00 both ways (counted from the true weekday of the first) |
| PosixTz.CetWindow | src/config/config.cpp:176-193 | every year, the Central European window runs from the last Sunday of March at 03:00 as written (02:00 corrected) to the last Sunday of October at 03:00 (counted from the true weekday of the first) |
| PosixTz.OffsetAt | src/config/config.cpp:120-223 | the offset is always the zone's standard offset or its daylight one; a zone without rules always gets the standard offset |
| PosixTz.CalculateOffsetAsWritten | src/config/config.cpp:120-223 | as written, the offset is the standard or the daylight one, or undefined when a rule month indexes past the table |
| PosixTz.CalculateOffset | src/config/config.cpp:120-223 | the corrected offset is the standard or the daylight one, and is defined exactly when the code's is |
| PosixTz.OffsetOfWindow | src/config/config.cpp:195-222 | once the year's window is known, the offset is the daylight one exactly when the day and second fall inside it |
| PosixTz.InDstIsInterval | src/config/config.cpp:202-210 | the corrected test in a northern window is one half-open interval, from the start transition in standard time to the end transition in daylight time |
| PosixTz.AsWrittenAgrees | src/config/config.cpp:202-220 | while the `unsigned` sums do not wrap, the code's test is the corrected one |
| PosixTz.StartDayWraps | src/config/config.cpp:206-207 | on the start day, a local second below zero wraps in `unsigned`, and the code reports daylight time where there is none |
| PosixTz.EndDayWraps | src/config/config.cpp:208-209 | on the end day, a local second below zero wraps, and the code ends daylight time too early |
| PosixTz.CentralWindows | src/config/config.cpp:120-223 | for US Central time both versions come down to the window test on the UTC year |
| PosixTz.CentralOffset | src/config/config.cpp:120-223 | corrected, US Central time is 5 hours west exactly during the US summer of the UTC year, else 6 hours west |
| PosixTz.CentralSpringWrap | src/config/config.cpp:204-207 | on the spring transition day before 06:00 UTC the code already gives 5 hours west, where 6 is right |
| PosixTz.CentralFallWrap | src/config/config.cpp:208-209 | on the autumn transition day before 05:00 UTC the code already gives 6 hours west, where 5 is right |
| PosixTz.CentralAgreesElsewhere | src/config/config.cpp:120-223 | outside those two early-morning stretches the code gives the corrected offset for US Central time |
| PosixTz.CetWindows | src/config/config.cpp:120-223 | for Central European time both versions come down to the window test, with start hours 3 and 2 |
| PosixTz.CetOffset | src/config/config.cpp:120-223 | corrected, Central European time is two hours east exactly during the EU summer of the UTC year, else one |
| PosixTz.CetStartHourSpill | src/config/config.cpp:110-114 | on the last Sunday of March from 01:00 to 02:00 UTC the code still gives one hour east, where two is right |
| PosixTz.CetAgreesElsewhere | src/config/config.cpp:120-223 | outside that hour the code gives the corrected offset for Central European time |
| PosixTz.FixedZone | src/config/config.cpp:124-138 | a zone of three capitals and one digit ("UTC0", "MST7") has that offset all year |
| PosixTz.UnknownNameIsUtc | src/config/config.cpp:226-250 | a name no entry contains and that does not look like a TZ string is UTC |
| PosixTz.ChicagoOffset | src/config/config.cpp:246-250 | "America/Chicago" follows the US rules at 6 hours west |
| Configuration.SkipWhitespace | src/config/config.cpp:275-281 | the position moves over spaces, tabs, CRs and LFs only, and stops at the first other character |
| Configuration.FindKey | src/config/config.cpp:283-298 | a found value lies after the search start and does not begin with white space |
| Configuration.FindKeyAt | src/config/config.cpp:283-298 | only the first occurrence of the quoted key counts: there is a value exactly when a ':' follows it past white space |
| Configuration.FindKeyValue | src/config/config.cpp:288-297 | after the first occurrence of the quoted key and a ':', the value starts past the white space |
| Configuration.FindKeyAbsent | src/config/config.cpp:288-289 | a key whose quoted form does not occur is not found |
| Configuration.NoQuoteNoKey | src/config/config.cpp:283-289 | a text without '"' holds no key |
| Configuration.CopyChars | src/config/config.cpp:305-314 | the copy fills at most the room left, never moves backwards, and holds no NUL |
| Configuration.CopyQuoted | src/config/config.cpp:305-314 | copying an escaped string gives the string back, cut to the room, and ends at its closing quote when it fits |
| Configuration.ParseString | src/config/config.cpp:300-318 | a string is read exactly when a '"' follows the white space; it fits the buffer with its terminator, and the position moves on |
| Configuration.ParseStringOfQuoted | src/config/config.cpp:300-318 | a quoted, escaped value reads back as itself, cut to the buffer, ending after its closing quote when it fits |
| Configuration.FindArrayStart | src/config/config.cpp:320-325 | an array is found exactly when '[' follows the white space, and the position is just past it |
| Configuration.FindObjectStart | src/config/config.cpp:327-332 | an object is found exactly when '{' follows the white space, and the position is just past it |
| Configuration.SkipString | src/config/config.cpp:340-343 | skipping a string stops at its closing quote or the end of the text |
| Configuration.FindObjectEnd | src/config/config.cpp:334-351 | the scan for the end of an object never moves backwards |
| Configuration.ObjectEndIsClosing | src/config/config.cpp:334-351 | the scan stops at the brace that closes the object, counting braces outside strings only, and runs to the end when none does |
| Configuration.CString | src/config/config.cpp:380 | the text of a buffer is its part before the first NUL |
| Configuration.ReadBuffer | src/config/config.cpp:366-381 | the corrected read gives a prefix of the file of at most 8192 bytes, and the whole file when it fits and holds no NUL |
| Configuration.ReadBufferOverflow | src/config/config.cpp:366-381 | under 8192 bytes the code reads what the corrected read gives; from 8192 bytes on it stores the terminator past the end of the array |
| Configuration.StringField | src/config/config.cpp:384-402 | a string setting keeps its value unless its key is found, and a new value fits the field |
| Configuration.Timezone | src/config/config.cpp:384-389 | the time zone fits its field |
| Configuration.TimezoneOfQuoted | src/config/config.cpp:384-389 | a quoted "timezone" value becomes the zone, cut to the field |
| Configuration.LoadTimezone | src/config/config.cpp:384-389 | the first "timezone" key, followed by ':' and a quoted value, sets the zone to that value, cut to the field |
| Configuration.WeatherField | src/config/config.cpp:391-402 | a weather setting fits its field |
| Configuration.KeyBefore | src/config/config.cpp:421-444 | a key is looked up only when it lies before the end of the enclosing calendar object |
| Configuration.ParseCalendar | src/config/config.cpp:421-444 | a calendar's URL, name and colour fit their fields |
| Configuration.KeepCalendar | src/config/config.cpp:446-451 | a calendar is kept exactly when its URL is not empty |
| Configuration.CalendarsFrom | src/config/config.cpp:412-456 | the calendar loop only appends kept calendars and stops at the limit |
| Configuration.Calendars | src/config/config.cpp:404-458 | at most the limit of calendars, each with a URL, and none without a "calendars" key |
| Configuration.UpdateEnabled | src/config/config.cpp:460-471 | updates are enabled only when the text holds "true" |
| Configuration.UpdateFromText | src/config/config.cpp:460-471 | updates are enabled exactly when the first "enabled" after "update" has a value beginning with "true" |
| Configuration.Load | src/config/config.cpp:384-474 | every setting fits its field, the grid and widget count keep their defaults, and the calendars keep the limit and have URLs |
| Configuration.NoKeysKeepsDefault | src/config/config.cpp:252-272 | a text without '"' leaves every setting at its default |
| Configuration.LoadFromFile | src/config/config.cpp:353-474 | loading succeeds exactly when the file can be opened; otherwise the defaults stay |
| Json.StrLessTransitive | src/utils/json.cpp:224 | the key order of an object (that of `std::string`) is transitive |
| Json.StrLessTotal | src/utils/json.cpp:224 | any two different keys are ordered one way or the other |
| Json.Insert | src/utils/json.cpp:224 | storing a member keeps the keys sorted and unique, holds the new pair, and adds at most one entry |
| Json.InsertEntries | src/utils/json.cpp:224 | after storing, every entry is the new one or an old one, and every old entry with another key survives |
| Json.InsertLookup | src/utils/json.cpp:224 | a stored key reads back its latest value, and every other key reads as before |
| Json.Lookup | src/utils/json.cpp:96-104 | a key found gives one of its object's pairs; a key not found is in no pair |
| Json.ExactlyOneKind | src/utils/json.cpp:23-45 | every value is exactly one of null, bool, number, string, array and object |
| Json.AsBool | src/utils/json.cpp:47-52 | a bool gives its value, anything else the default |
| Json.AsNumber | src/utils/json.cpp:54-59 | a number gives its value, anything else the default |
| Json.AsString | src/utils/json.cpp:68-73 | a string gives its value, anything else the default |
| Json.AsArray | src/utils/json.cpp:75-80 | an array gives its elements, anything else an empty array |
| Json.AsObject | src/utils/json.cpp:82-87 | an object gives its members, anything else an empty object |
| Json.HasKey | src/utils/json.cpp:89-94 | true exactly for an object with a member of that key |
| Json.Member | src/utils/json.cpp:96-104 | an object's member of that key, and null for a missing key or a value that is not an object |
| Json.Element | src/utils/json.cpp:106-113 | the element at an index inside an array, and null otherwise |
| Json.Size | src/utils/json.cpp:115-123 | the number of elements or members, and 0 for any other value |
| Json.SkipWs | src/utils/json.cpp:153-159 | the position moves over spaces, tabs, LFs and CRs only, and stops at the first other character |
| Json.StringStep | src/utils/json.cpp:285-320 | one step of a string reads a character, or the closing quote, or fails with one of the four string errors |
| Json.ParseString | src/utils/json.cpp:279-324 | a string that is read ends after its opening quote and inside the text |
| Json.ScanInt | src/utils/json.cpp:335-343 | the integer part is a run of digits, and is missing exactly when no digit follows |
| Json.ScanFrac | src/utils/json.cpp:345-354 | a fraction is read or absent; it fails only on a '.' without a digit after it |
| Json.ScanExp | src/utils/json.cpp:356-366 | an exponent is read or absent; it fails only on an 'e' or 'E' without digits |
| Json.ParseNumber | src/utils/json.cpp:326-372 | a number read is the text it covers, and the only failures are "Invalid number" and "Invalid number exponent" |
| Json.ParseValue | src/utils/json.cpp:161-190 | a value read ends past its start and inside the text |
| Json.ParseObject | src/utils/json.cpp:192-243 | an object read is an object with sorted, unique keys |
| Json.ParseArray | src/utils/json.cpp:245-277 | an array read is an array ending inside the text |
| Json.Parse | src/utils/json.cpp:132-151 | the error is empty exactly when one value and then only white space make up the text, and on an error the value is null |
| Json.Message | src/utils/json.cpp:140-149 | every parse error has a message |
| JsonLemmas.ParseNumberSound | src/utils/json.cpp:326-372 | every number read follows the JSON number grammar |
| JsonLemmas.ParseNumberComplete | src/utils/json.cpp:326-372 | a number in JSON grammar, followed by a character that cannot continue it, is read whole |
| JsonLemmas.LeadingZeroRejected | src/utils/json.cpp:334-336 | "01" is refused: the number ends after the 0 and the 1 is left over |
| JsonLemmas.PlusSignRejected | src/utils/json.cpp:176-189 | "+1" is not a JSON value |
| JsonLemmas.EscapeCharDecodes | src/utils/json.cpp:386-397 | every character Stringify escapes, the parser decodes back to the same character |
| JsonLemmas.ParseEscapedString | src/utils/json.cpp:279-324 | a string escaped as Stringify writes it reads back as itself, ending after its closing quote |
| JsonLemmas.ParseRawString | src/utils/json.cpp:405-412 | an object key, written without escaping, reads back when it holds no quote and no backslash |
| JsonLemmas.ParseElementsOf | src/utils/json.cpp:255-273 | the elements Stringify writes read back as the same elements, ending after the ']' |
| JsonLemmas.ParseArrayOf | src/utils/json.cpp:245-277 | an array Stringify writes reads back as the same array |
| JsonLemmas.ParseMembersOf | src/utils/json.cpp:203-240 | the members Stringify writes, in key order, read back as the same members, ending after the '}' |
| JsonLemmas.ParseObjectOf | src/utils/json.cpp:192-243 | an object Stringify writes reads back as the same object |
| JsonLemmas.ParseValueOf | src/utils/json.cpp:161-190 | any well-formed value Stringify writes reads back as itself |
| JsonLemmas.ParseStringify | src/utils/json.cpp:374-419 | parsing Stringify's text gives back the value, without error, for every value whose numbers follow the grammar and whose keys hold no quote or backslash |
| JsonLemmas.TrailingCommaInArray | src/utils/json.cpp:255-256 | after a ',' in an array, a ']' is not a value, so a trailing comma fails |
| JsonLemmas.TrailingCommaInObject | src/utils/json.cpp:203-209 | after a ',' in an object, a '}' is not a key, so a trailing comma fails |
| JsonLemmas.TrailingCommaArrayText | src/utils/json.cpp:132-151 | "[1,]" gives null and "Invalid JSON value" |
| StringUtils.FirstNonSpace | src/utils/string_utils.cpp:13 | the first character that is not a space, tab, LF or CR, or the end when there is none |
| StringUtils.EndNonSpace | src/utils/string_utils.cpp:17 | the position just after the last character that is not white space, or 0 when there is none |
| StringUtils.TrimSpec | src/utils/string_utils.cpp:11-19 | the trimmed string is a slice of the input with only white space cut on either side, and neither end of it is white space; it is empty exactly for an all-white-space input |
| StringUtils.TrimIdempotent | src/utils/string_utils.cpp:11-19 | trimming twice is trimming once |
| StringUtils.ToLower | src/utils/string_utils.cpp:21-27 | each ASCII capital becomes its small letter and every other character stays, length kept |
| StringUtils.ToUpper | src/utils/string_utils.cpp:29-35 | each ASCII small letter becomes its capital and every other character stays, length kept |
| StringUtils.LowerUpperNoUpper | src/utils/string_utils.cpp:21-35 | ToLower leaves no capital and ToUpper leaves no small letter |
| StringUtils.Join | src/utils/string_utils.cpp:66-77 | no parts join to the empty string and one part to itself |
| StringUtils.JoinCons | src/utils/string_utils.cpp:70-75 | joining a first part to more is the part, the delimiter, and the join of the rest |
| StringUtils.SplitChar | src/utils/string_utils.cpp:37-48 | no part holds the delimiter, and there are no parts exactly for the empty string |
| StringUtils.SplitCharJoin | src/utils/string_utils.cpp:37-48 | joining the parts with the delimiter gives the string back, less one trailing delimiter, which `getline` drops |
| StringUtils.SplitStep | src/utils/string_utils.cpp:57-59 | a step of the string split covers one part and one delimiter |
| StringUtils.SplitStepLayout | src/utils/string_utils.cpp:57-59 | the rest of the string is the part, the delimiter and what follows |
| StringUtils.SplitEmptyDelimiterStalls | src/utils/string_utils.cpp:57-59 | with an empty delimiter a step finds an empty part and does not advance, so the loop never ends |
| StringUtils.SplitFrom | src/utils/string_utils.cpp:57-62 | with a non-empty delimiter splitting always gives at least one part |
| StringUtils.SplitFromJoin | src/utils/string_utils.cpp:57-62 | the parts from a position join back to the rest of the string |
| StringUtils.SplitFromCount | src/utils/string_utils.cpp:57-62 | the parts are one more than the delimiters found from that position |
| StringUtils.SplitJoin | src/utils/string_utils.cpp:50-64 | joining the parts with the delimiter gives the string back, and there is one part more than there are delimiters |
| StringUtils.StartsWith | src/utils/string_utils.cpp:79-85 | true exactly when the prefix begins the string |
| StringUtils.EndsWith | src/utils/string_utils.cpp:87-94 | true exactly when the suffix ends the string |
| StringUtils.ContainsStr | src/utils/string_utils.cpp:96-99 | true exactly when the substring occurs in the string |
| StringUtils.Replace | src/utils/string_utils.cpp:101-110 | only the first occurrence is replaced, and a string without one is unchanged |
| StringUtils.ReplaceAll | src/utils/string_utils.cpp:112-124 | every occurrence, found left to right and never inside a replacement, is replaced |
| StringUtils.ReplaceAllSpecUnfold | src/utils/string_utils.cpp:118-121 | the text before the first occurrence stays, then the replacement, then the rest replaced in turn |
| StringUtils.ReplaceAllEmptyNeverStops | src/utils/string_utils.cpp:118-121 | an empty pattern is found again at each new position, so the loop never ends |
| StringUtils.UrlEncode | src/utils/string_utils.cpp:136-154 | the encoded text holds only unreserved characters, '+' and '%' |
| StringUtils.ByteOf | src/utils/string_utils.cpp:165 | the cast keeps the low byte, so a value below 256 is itself |
| StringUtils.UrlDecode | src/utils/string_utils.cpp:156-178 | decoding never lengthens the text |
| StringUtils.DecodeEncodedByte | src/utils/string_utils.cpp:141-150 | decoding one encoded byte gives it back and leaves the rest to be decoded |
| StringUtils.UrlRoundTrip | src/utils/string_utils.cpp:136-178 | decoding the encoding of a byte string gives it back |
| CalendarWidget.LocalTime | src/modules/widgets/calendar_widget.cpp:100-102 | the local time is the UTC time plus the zone offset, wrapped to 32 bits |
| CalendarWidget.Tick | src/modules/widgets/calendar_widget.cpp:97-110 | the calendar is redrawn exactly when the local day number differs from the last one drawn, which it then records |
| CalendarWidget.CurrentDate | src/modules/widgets/calendar_widget.cpp:112-153 | the year and month walks give the calendar date of the local day number, a valid date from 1970 on |
| CalendarWidget.PrevMonth | src/modules/widgets/calendar_widget.cpp:175-180 | the month before, wrapping to December of the year before, whose length is what stepping back one month adds |
| CalendarWidget.BackUp | src/modules/widgets/calendar_widget.cpp:169-181 | stepping back through months while the day is below 1 reaches a valid date, the same number of days before the first of the month |
| CalendarWidget.WeekStart | src/modules/widgets/calendar_widget.cpp:166-181 | the first cell is the valid date the given number of days before today |
| CalendarWidget.NextDay | src/modules/widgets/calendar_widget.cpp:220-230 | moving to the next cell gives the valid date one day later |
| CalendarWidget.Walk | src/modules/widgets/calendar_widget.cpp:184-232 | the cells walked are consecutive valid dates from the first |
| CalendarWidget.RollingCalendarShowsToday | src/modules/widgets/calendar_widget.cpp:158-233 | with the true weekday, the 28 cells are consecutive days from a Sunday, and today is marked in exactly one cell, the one at its weekday |
| CalendarWidget.RollingShows | src/modules/widgets/calendar_widget.cpp:158-233 | whenever the weekday given is today's true weekday, the grid starts on a Sunday and marks only today, at that weekday |
| CalendarWidget.WalkFindsDay | src/modules/widgets/calendar_widget.cpp:205 | a day k cells after the start is marked in cell k and in no other |
| CalendarWidget.RollingAsWrittenAgrees | src/modules/widgets/calendar_widget.cpp:469-484 | from 2020 to 2099 the code's Zeller weekday gives the same grid as the true weekday |
| CalendarWidget.RollingAsWrittenOn2019March1 | src/modules/widgets/calendar_widget.cpp:469-484 | on 1 March 2019 the code's grid starts on Wednesday 27 February, where the Sunday is 24 February |
| CalendarWidget.CellLabel | src/modules/widgets/calendar_widget.cpp:195-200 | the first of a month is labelled with the month's short name and "1"; every other day with its number |
| CalendarWidget.ParseHexColor | src/modules/widgets/calendar_widget.cpp:235-252 | a colour shorter than 7 characters or without a leading '#' is the default grey |
| CalendarWidget.ParseHexColorOfHex | src/modules/widgets/calendar_widget.cpp:235-252 | "#RRGGBB" written from a colour reads back as that colour, whatever follows |
| CalendarWidget.Luminance | src/modules/widgets/calendar_widget.cpp:262 | the weighted luminance of a colour lies in 0..255 |
| CalendarWidget.UseDarkTextMonotone | src/modules/widgets/calendar_widget.cpp:254-266 | a colour at least as bright in every channel as one that takes dark text takes dark text too |
| CalendarWidget.UseDarkTextExtremes | src/modules/widgets/calendar_widget.cpp:254-266 | white takes dark text; black and the default grey take light text |
| CalendarWidget.EventColor | src/modules/widgets/calendar_widget.cpp:391-392 | the event's own colour when it has one, else its calendar's |
| CalendarWidget.ShortText | src/modules/widgets/calendar_widget.cpp:279-289 | a short time is at most 7 characters |
| CalendarWidget.ShortTextReadsBack | src/modules/widgets/calendar_widget.cpp:279-289 | the 12-hour "h" or "h:MM" with "am"/"pm" reads back as the hour and minute it was written from |
| CalendarWidget.FormatShortTime | src/modules/widgets/calendar_widget.cpp:268-293 | the short time fits the 16-byte buffer |
| CalendarWidget.ShortTimeIsLocal | src/modules/widgets/calendar_widget.cpp:268-293 | the short time names the hour and minute of the local time of day |
| CalendarWidget.OnDayIsDayNumber | src/modules/widgets/calendar_widget.cpp:304-343 | an event falls on a date exactly when its day number, UTC for all-day events and local for timed ones, is that date's |
| CalendarWidget.Matching | src/modules/widgets/calendar_widget.cpp:301-346 | every event collected is one of the widget's events and passes the test |
| CalendarWidget.MatchingComplete | src/modules/widgets/calendar_widget.cpp:301-346 | every event that passes the test is collected, when there is room |
| CalendarWidget.CollectEvents | src/modules/widgets/calendar_widget.cpp:301-346 | the collecting loop keeps the first events that pass the test, in order, up to the maximum |
| CalendarWidget.SwapNeededIsKeyOrder | src/modules/widgets/calendar_widget.cpp:351-358 | two events are swapped exactly when the later one comes first in the order of all-day first, then start time |
| CalendarWidget.Swap | src/modules/widgets/calendar_widget.cpp:359-363 | a swap exchanges two events and leaves the others |
| CalendarWidget.ExchangeSort | src/modules/widgets/calendar_widget.cpp:349-365 | the sort leaves a permutation of its input, all-day events first, then by start time |
| CalendarWidget.GetEventsForDay | src/modules/widgets/calendar_widget.cpp:295-368 | the day's events, at most the maximum, sorted, each an event of the widget on that date, and a permutation of the first ones that match |
| CalendarWidget.AddEvent | src/modules/widgets/calendar_widget.cpp:492-497 | an event is appended while there is room, and ignored once the list is full |
| CalendarWidget.ClearEvents | src/modules/widgets/calendar_widget.cpp:486-490 | clearing leaves no events |
| UpcomingEvents.OrdinalSuffixIsEnglish | src/modules/widgets/upcoming_events_widget.cpp:221-224 | for days 1..31 the suffix ladder gives the English ordinal suffix |
| UpcomingEvents.AtTime | src/modules/widgets/upcoming_events_widget.cpp:140-153 | the time after "at" is 4 to 8 characters |
| UpcomingEvents.AtTimeReadsBack | src/modules/widgets/upcoming_events_widget.cpp:140-153 | "h AM" or "h:MM PM" reads back as the hour and minute it was written from; the minutes are shown exactly when they are not 0 |
| UpcomingEvents.FormatEventDate | src/modules/widgets/upcoming_events_widget.cpp:110-232 | the date label fits its 32-byte buffer |
| UpcomingEvents.NearLabelsNotCut | src/modules/widgets/upcoming_events_widget.cpp:133-178 | an event on the local day of now is labelled "Today", one on the next day "Tomorrow", in full |
| UpcomingEvents.NearLabelNamesTime | src/modules/widgets/upcoming_events_widget.cpp:137-177 | an all-day event's near label is the bare word; a timed one's is the word, " at " and its local start time |
| UpcomingEvents.WeekLabelNamesWeekday | src/modules/widgets/upcoming_events_widget.cpp:179-189 | an event fewer than 7 days away, not today or tomorrow, and past ones too, is labelled with its weekday name |
| UpcomingEvents.FarLabelNamesDate | src/modules/widgets/upcoming_events_widget.cpp:190-229 | an event 7 or more days away is labelled with its short month, its day and the English suffix |
| UpcomingEvents.KeepTimed | src/modules/widgets/upcoming_events_widget.cpp:270-272 | once the clock is past the first hour, a timed event is kept exactly when it started no more than an hour ago |
| UpcomingEvents.KeepTimedBeforeClockSet | src/modules/widgets/upcoming_events_widget.cpp:270-272 | in the first hour after 1970 `now - 3600` wraps, and only events in the last hour of the 32-bit range are kept |
| UpcomingEvents.InsertPos | src/modules/widgets/upcoming_events_widget.cpp:284-288 | the insertion point comes after every entry whose key is not greater and before every greater one |
| UpcomingEvents.InsertPosUnique | src/modules/widgets/upcoming_events_widget.cpp:284-288 | that point is the only one with this property |
| UpcomingEvents.Insert | src/modules/widgets/upcoming_events_widget.cpp:284-290 | inserting adds exactly the new event |
| UpcomingEvents.InsertSorted | src/modules/widgets/upcoming_events_widget.cpp:284-290 | inserting into a sorted list keeps it sorted |
| UpcomingEvents.InsertShifting | src/modules/widgets/upcoming_events_widget.cpp:284-290 | the shifting loop produces the insertion |
| UpcomingEvents.InsertStable | src/modules/widgets/upcoming_events_widget.cpp:284-290 | the new event goes after every event with the same key, so equal keys keep their order |
| UpcomingEvents.SortUpcomingSpec | src/modules/widgets/upcoming_events_widget.cpp:264-293 | the sorted list is ordered by key, holds exactly the kept events, and keeps events with equal keys in list order |
| UpcomingEvents.VisibleRows | src/modules/widgets/upcoming_events_widget.cpp:296-301 | at least one row and at most the maximum; as many rows of 30 pixels with 4-pixel gaps as fit, and one more would not |
| UpcomingEvents.RowsShown | src/modules/widgets/upcoming_events_widget.cpp:304 | the rows shown are the smaller of the events sorted and the rows visible |
| UpcomingEvents.Opacity | src/modules/widgets/upcoming_events_widget.cpp:314-318 | a row's opacity lies in 80..255 |
| UpcomingEvents.OpacityFade | src/modules/widgets/upcoming_events_widget.cpp:305-318 | all rows are opaque but the last three, which fade to 255, 195 and 135, and opacity never rises down the list |
| UpcomingEvents.AddEvent | src/modules/widgets/upcoming_events_widget.cpp:375-380 | an event is appended while there is room, and ignored once the list is full |
| DateTimeWidget.LocalTime | src/modules/widgets/datetime_widget.cpp:82 | the local time is the timer value plus the offset, wrapped to 32 bits |
| DateTimeWidget.TimeLabelsNameTheSecond | src/modules/widgets/datetime_widget.cpp:80-120 | the "h:MM" label, the two seconds digits and "am"/"pm" together name the local second of the day |
| DateTimeWidget.DateFieldsAreCivil | src/modules/widgets/datetime_widget.cpp:124-166 | the weekday, year, month and day computed are those of the local day number |
| DateTimeWidget.DateLabelNamesTheDate | src/modules/widgets/datetime_widget.cpp:168-186 | the date label is "Weekday, Month D, YYYY" of the local day |
| DateTimeWidget.YearBelow10000 | src/modules/widgets/datetime_widget.cpp:143-151 | every 32-bit time falls before the year 10000, so the year has at most four digits |
| DateTimeWidget.Update | src/modules/widgets/datetime_widget.cpp:64-78 | the labels are redrawn exactly when the timer's second differs from the last one drawn, and then show that second |
| DateTimeWidget.UpdateIdempotent | src/modules/widgets/datetime_widget.cpp:64-78 | a second update at the same second changes nothing |
| WeatherWidget.NormalizeDegrees | src/modules/widgets/weather_widget.cpp:100-101 | the bearing is brought into 0..359, equal to the input modulo 360 |
| WeatherWidget.WindDirectionToCardinal | src/modules/widgets/weather_widget.cpp:97-120 | the name is one of the 16 compass points |
| WeatherWidget.CardinalIsNearestPoint | src/modules/widgets/weather_widget.cpp:97-120 | the threshold ladder names the compass point nearest the bearing, in steps of 22.5 degrees |
| WeatherWidget.CardinalPeriodic | src/modules/widgets/weather_widget.cpp:100-101 | bearings a whole number of turns apart get the same name |
| WeatherWidget.CardinalCoversCompass | src/modules/widgets/weather_widget.cpp:104-119 | every compass point is named for some bearing |
| WeatherWidget.CompassDistinct | src/modules/widgets/weather_widget.cpp:104-119 | the 16 names are all different |
| WeatherWidget.LocalDays | src/modules/widgets/weather_widget.cpp:84-90 | when the `int` sum of time and offset neither overflows nor goes negative, the day number is whole local days since 1970; a negative sum gives day 0 |
| WeatherWidget.GetDayName | src/modules/widgets/weather_widget.cpp:67-95 | day 0 is "Today", day 1 "Tomorrow", later days a short weekday name, and a negative day indexes out of the table |
| WeatherWidget.DayNameIsWeekdayAhead | src/modules/widgets/weather_widget.cpp:83-94 | with the clock set, a later day is the weekday that many days after the local today |
| WeatherWidget.DayNameWithoutTime | src/modules/widgets/weather_widget.cpp:77-81 | with the clock unset, days 2 to 4 are named Wed, Thu and Fri whatever the date |
| WeatherWidget.Initial | src/modules/widgets/weather_widget.cpp:11-47 | a new widget holds the default data and no forecast |
| WeatherWidget.SetForecast | src/modules/widgets/weather_widget.cpp:258-265 | up to five days are copied in order; the count is capped at five, and the rest and the current data stay |
| WeatherWidget.TempsText | src/modules/widgets/weather_widget.cpp:324-327 | the high and low text fits its 24-byte buffer |
| WeatherWidget.LocationText | src/modules/widgets/weather_widget.cpp:270-275 | the location fits its buffer and holds no small letter |
| WeatherWidget.LocationNotTruncated | src/modules/widgets/weather_widget.cpp:270-275 | city and state always fit, so the location is the whole "CITY, STATE" in capitals |
| WeatherWidget.UpdateDisplay | src/modules/widgets/weather_widget.cpp:267-342 | exactly the first forecast-count rows are shown; the current icon is the daytime icon of the weather code; the wind icon is the Beaufort level of the speed |
| WeatherWidget.ForecastRowsShown | src/modules/widgets/weather_widget.cpp:310-333 | after SetForecast a row is shown exactly for the days given, with the small daytime icon of its code, and "Today" and "Tomorrow" first |
| WeatherWidget.InitialDisplay | src/modules/widgets/weather_widget.cpp:35-47 | the default widget shows "DALLAS, US-TX" and hides every forecast row |
| WeatherWidget.InitialWindText | src/modules/widgets/weather_widget.cpp:39-40 | the default wind reads "5 S" |
| WeatherService.Condition | src/services/weather_service.cpp:143-155 | the condition text of a WMO code always fits the 32-byte condition field with its terminator |
| WeatherService.ConditionMatchesIcon | src/services/weather_service.cpp:143-155 | the condition text names the same weather family as the icon chosen for the code for every code Open-Meteo defines, and it differs exactly for codes 49, 58, 59, 68, 69, 78, 79, 83, 84 and 87-94, where the two tables' bounds part |
| WeatherService.ScanD | src/services/weather_service.cpp:175 | a successful `%d` conversion consumes at least one character and stays inside the text |
| WeatherService.ScanTwoDigits | src/services/weather_service.cpp:175 | two digits followed by a non-digit read as their two-digit value and stop after the second digit |
| WeatherService.SunText | src/services/weather_service.cpp:177-183 | an hour 0-23 and minute 0-59 become the 12-hour clock text with am/pm, which fits the 16-byte field; any other reading leaves the field empty |
| WeatherService.SunField | src/services/weather_service.cpp:163-188 | whatever the body holds, the sunrise or sunset text fits its 16-byte field |
| WeatherService.SunFieldReads | src/services/weather_service.cpp:163-188 | the time read is the HH:MM after the 'T' of the first quoted value in the array after the key |
| WeatherService.SunReadingAt | src/services/weather_service.cpp:163-167 | the reading starts at the first '[' after the key's first occurrence after "daily" |
| WeatherService.FirstTimeAt | src/services/weather_service.cpp:167-175 | within the array the reading is the hour and minute right after the first 'T' that follows the first quote |
| WeatherService.HourMinuteDigits | src/services/weather_service.cpp:175 | text of the form HH:MM reads as those two numbers |
| WeatherService.ParseCurrentWeather | src/services/weather_service.cpp:101-226 | on the C string of a body, parsing fails exactly when it has no "current" key, and then leaves the zeroed record; the unit flag is always copied; a condition text is present only as the text of the stored weather code |
| WeatherService.CurrentCondition | src/services/weather_service.cpp:138-156 | a weather code found after "current" is stored and its condition text set |
| WeatherService.SkipFill | src/services/weather_service.cpp:270-273 | skipping stops at the first character that is not a space, a newline or (for the temperature and time arrays) a quote, and never moves backwards |
| WeatherService.DayOf | src/services/weather_service.cpp:280-296 | forecast day i is named by the fixed table at (i + 1) mod 7, whatever its date, and has code 0 when the code array is missing |
| WeatherService.SkipAll | src/services/weather_service.cpp:269-273 | skipping fill keeps the presence of the code array unchanged |
| WeatherService.Advance | src/services/weather_service.cpp:298-313 | moving past the commas keeps the presence of the code array unchanged |
| WeatherService.NamedAppend | src/services/weather_service.cpp:292-294 | appending the next day keeps every stored day named by its index |
| WeatherService.ForecastLoop | src/services/weather_service.cpp:268-314 | the loop extends the days already read, stops at five, and every day is named by its index |
| WeatherService.ParseForecast | src/services/weather_service.cpp:228-319 | on the C string of a body, it succeeds exactly when at least one day is read, reads at most five, fails without "daily", and names day k by the table entry (k + 1) mod 7 |
| WeatherService.FetchWeather | src/services/weather_service.cpp:38-75 | a failed request leaves the caller's record and fails; otherwise the body is parsed up to its first NUL, and the fetch succeeds exactly when that text has a "current" key |
| WeatherService.FetchForecast | src/services/weather_service.cpp:77-99 | a failed request leaves the caller's days and fails; otherwise the body is parsed up to its first NUL, and success needs a "daily" key before that NUL |
| WeatherService.FetchIgnoresAfterNul | src/services/weather_service.cpp:64 | whatever follows a NUL in a weather or forecast body does not change either result |
| WeatherService.LeadingNulFails | src/services/weather_service.cpp:64 | a body that starts with a NUL fails both fetches and gives the zeroed record and no days |
| WeatherService.ForecastNeedsArrays | src/services/weather_service.cpp:240-248 | without the high, low or time arrays the forecast fails with no days, while the weather code array is optional |
| WeatherService.MissingCodesAreClear | src/services/weather_service.cpp:286-290 | without a weather code array every forecast day has code 0 |
| WeatherService.ExtractString | src/services/weather_service.cpp:344-365 | a string read is shorter than the buffer and holds no quote |
| WeatherService.QuotedFrom | src/services/weather_service.cpp:352-357 | the text between two quotes holds no quote |
| WeatherService.ExtractStringOf | src/services/weather_service.cpp:344-365 | a body with key, colon and quoted value reads back the value, truncated to the buffer |
| WeatherService.ExtractStringAt | src/services/weather_service.cpp:344-365 | at the key's first occurrence, a colon and a quoted value read back as that value, truncated to the buffer |
| WeatherService.ColonAfter | src/services/weather_service.cpp:349 | the colon searched for is the one right after the key |
| WeatherService.QuotedUpTo | src/services/weather_service.cpp:356 | the closing quote is the first quote after the value |
| WeatherService.KeyFirstAt | src/services/weather_service.cpp:346 | `strstr` finds a key at the end of a prefix that cannot start it |
| Geocoding.SkipBlanks | src/services/geocoding_service.cpp:153 | skipping passes exactly the spaces and tabs after the colon |
| Geocoding.ValueStart | src/services/geocoding_service.cpp:145-153 | the value starts after the colon that follows the key, at a character that is no blank |
| Geocoding.ExtractString | src/services/geocoding_service.cpp:143-168 | a string is read only when the value starts with a quote; it is shorter than the buffer and holds no quote |
| Geocoding.ExtractFloat | src/services/geocoding_service.cpp:170-183 | a number is read exactly when the key and its colon are found, and is `strtof` of the text after the blanks |
| Geocoding.Field | src/services/geocoding_service.cpp:143-168 | the text of a key, colon, blanks and quoted value lays each piece out in order |
| Geocoding.ExtractStringOf | src/services/geocoding_service.cpp:143-168 | a body with key, colon, blanks and a quoted value reads back the value, truncated to the buffer |
| Geocoding.ExtractStringAt | src/services/geocoding_service.cpp:143-168 | at the key's first occurrence, such a field reads back as its value, truncated to the buffer |
| Geocoding.UnquotedIsNoString | src/services/geocoding_service.cpp:156 | a value that does not start with a quote reads as no string |
| Geocoding.TableShape | src/services/geocoding_service.cpp:95-110 | every abbreviation in the state table is two capital letters starting with the state's first letter |
| Geocoding.IndexOf | src/services/geocoding_service.cpp:113-118 | the search finds the first table row with the name, and none when no row has it |
| Geocoding.StateAbbrev | src/services/geocoding_service.cpp:112-118 | an abbreviation is found exactly for a name in the table, is that name's entry, and is two letters starting with the name's initial |
| Geocoding.StateAbbrevExamples | src/services/geocoding_service.cpp:114 | the match is exact: "Alabama" gives AL, "alabama" gives nothing |
| Geocoding.ReadFields | src/services/geocoding_service.cpp:82-137 | the fields fit their buffers, an abbreviation is the table entry of the state, and the record is valid exactly when it has a city and non-zero coordinates |
| Geocoding.ParseResponse | src/services/geocoding_service.cpp:50-141 | on the C string of a body, success equals the valid flag and needs "results", a city and non-zero coordinates; fields fit their buffers and an abbreviation belongs to the state |
| Geocoding.ValidWhenComplete | src/services/geocoding_service.cpp:127-140 | once a result object is found, parsing succeeds exactly when the city and both coordinates are present and non-zero |
| Geocoding.SearchPath | src/services/geocoding_service.cpp:34-35 | the search path carries the zipcode right after "/v1/search?name=" |
| Geocoding.LookupZipcode | src/services/geocoding_service.cpp:23-48 | a failed request gives the cleared location; otherwise the result is the parse of the body up to its first NUL (the whole body when it holds none), and a location is found only when that text holds "results" |
| Text.CStr | src/services/geocoding_service.cpp:47 | the text a `const char*` body stands for is the longest prefix without a NUL, ending just before the first NUL when there is one, and the whole text when there is none |
| Text.CStrStopsAtNul | src/services/geocoding_service.cpp:47 | nothing after a C string's first NUL is part of it |
| Geocoding.LookupIgnoresAfterNul | src/services/geocoding_service.cpp:47 | whatever follows a NUL in the body does not change the location found |
| Geocoding.LeadingNulNoLocation | src/services/geocoding_service.cpp:47 | a body that starts with a NUL gives no location and the cleared record |
| Geocoding.NoResultsNoLocation | src/services/geocoding_service.cpp:68-73 | a body without "results" gives the empty, invalid location |
| Geocoding.FirstResultNamesCity | src/services/geocoding_service.cpp:75-83 | the "name" field opening the first result object becomes the city, truncated to its buffer |
| Geocoding.CityOfResult | src/services/geocoding_service.cpp:75-83 | the city is the "name" string read from the first result object |
| UpdateService.IsNewerIsDifference | src/services/update_service.cpp:174-177 | "newer" means "different": irreflexive and symmetric, so a downgrade counts as an update |
| UpdateService.TrimTrailing | src/services/update_service.cpp:144-149 | trimming removes exactly the trailing newlines, carriage returns and spaces |
| UpdateService.TrimTrailingIdempotent | src/services/update_service.cpp:144-149 | trimming twice is trimming once |
| UpdateService.TrimTrailingPadding | src/services/update_service.cpp:144-149 | a tag followed by line ends and spaces trims back to the tag |
| UpdateService.ReadCurrentVersion | src/services/update_service.cpp:128-152 | without the version file there is no version; a version read is the trimmed text of at most 63 bytes of the file, up to its first NUL |
| UpdateService.VersionFileWithNewline | src/services/update_service.cpp:128-152 | a file holding a tag and a newline reads back as the tag |
| UpdateService.CopyUntilQuote | src/services/update_service.cpp:97-101 | the copy is the text at the position up to the first quote or NUL, cut at the room left |
| UpdateService.QuotedAfter | src/services/update_service.cpp:85-101 | a value read is shorter than the buffer and holds no quote; without the key there is none |
| UpdateService.FetchLatestRelease | src/services/update_service.cpp:74-126 | a release needs a response and non-empty tag and asset URL, which fit their buffers and are the quoted values after "tag_name" and "browser_download_url" |
| UpdateService.QuotedAfterReads | src/services/update_service.cpp:85-101 | a quoted value after the key that fits the buffer reads back whole |
| UpdateService.QuotedAfterTruncates | src/services/update_service.cpp:97-101 | a longer value is cut to the buffer size less one |
| UpdateService.NoTagNoRelease | src/services/update_service.cpp:85-89 | a body without "tag_name" gives no release |
| UpdateService.WriteVersion | src/services/update_service.cpp:154-172 | writing succeeds exactly when the write does, then the version file holds the version; no other file changes |
| UpdateService.DownloadAndInstall | src/services/update_service.cpp:179-215 | install succeeds exactly when a non-empty download is renamed into place, leaving the download as kernel.img and no kernel.new, whether or not the version is written |
| UpdateService.FailedDownloadKeepsKernel | src/services/update_service.cpp:184-196 | a failed or empty download removes kernel.new and leaves kernel.img as it was |
| UpdateService.FailedRenameLosesKernel | src/services/update_service.cpp:201-207 | a failed rename leaves the card with no kernel.img, since the old one was deleted first |
| UpdateService.InstalledDespiteVersionWrite | src/services/update_service.cpp:209-214 | a failed version write still reports the install, and an unopened version file keeps the old tag |
| UpdateService.InstallRecordsVersion | src/services/update_service.cpp:179-215 | after a full install the version read back is the new tag, so the next check finds nothing newer |
| UpdateService.CurrentVersion | src/services/update_service.cpp:28-42 | the version file wins; without it the compile-time version is used when it is defined |
| UpdateService.CheckAndUpdate | src/services/update_service.cpp:22-72 | it reports an update exactly when a current version and a release exist, the tags differ, and the install succeeds; without a version or a release the card is untouched |
| UpdateService.UpToDateLeavesCard | src/services/update_service.cpp:55-59 | a release with the current tag installs nothing and leaves the card as it was |
| CalendarService.CollectEvent | src/services/calendar_service.cpp:17-23 | an event is appended while there is room and dropped once the array is full |
| CalendarService.Room | src/services/calendar_service.cpp:17-23 | the number of events kept never overfills the array, and fewer than offered are kept only when it is full |
| CalendarService.CollectAllKeepsPrefix | src/services/calendar_service.cpp:17-23 | collecting a run of events keeps the stored ones and appends the first events that fit |
| CalendarService.Chunks | src/services/calendar_service.cpp:77-87 | every chunk fed is non-empty and at most 8192 bytes |
| CalendarService.ChunksConcat | src/services/calendar_service.cpp:77-87 | the chunks put together are the whole body, and there are ceil(length / 8192) of them |
| CalendarService.FeedAll | src/services/calendar_service.cpp:80-87 | feeding the chunks keeps the parser valid and only adds to what it has emitted |
| CalendarService.GrowsTransitive | src/services/calendar_service.cpp:80-89 | growth of the emitted events across chunks composes |
| CalendarService.FetchCalendar | src/services/calendar_service.cpp:42-95 | a failed request or a non-200 answer returns the stored events unchanged; otherwise the stored events are kept as a prefix and the array never overfills |
| CalendarService.FetchAddsReportedEvents | src/services/calendar_service.cpp:62-94 | a successful fetch appends the events the parser reports, in order, up to the array's room, and all of them when they fit |
| CalendarService.FullArrayUnchanged | src/services/calendar_service.cpp:17-23 | with a full array a fetch keeps exactly the stored events |
| CalendarService.SmallBodyOneChunk | src/services/calendar_service.cpp:80-87 | a body of at most 8192 bytes is fed in one piece |
| HttpClient.StripScheme | src/services/http_client.cpp:88-97 | "https://" is removed and sets SSL; otherwise "http://" is removed; any other URL is left whole without SSL |
| HttpClient.StripSchemeOf | src/services/http_client.cpp:88-97 | removing the scheme from a URL built with "https://" or "http://" gives back the rest of the URL and whether the scheme was https |
| HttpClient.ParseUrl | src/services/http_client.cpp:85-121 | parsing fails exactly when the host before the first '/' does not fit its 256-byte buffer; the host holds no '/', the path starts with '/' and fits its buffer, and SSL is set exactly for "https://" |
| HttpClient.ParseUrlOfParts | src/services/http_client.cpp:85-121 | a URL built from a scheme, a host that fits and a path parses back into them |
| HttpClient.SlashAfterHost | src/services/http_client.cpp:100-104 | the first '/' after a host without one is where the path starts |
| HttpClient.NoPathAsksForRoot | src/services/http_client.cpp:107-111 | a URL with no '/' after the scheme asks for the path "/" |
| HttpClient.LongHostRejected | src/services/http_client.cpp:113-115 | a host of 256 characters or more makes parsing fail |
| HttpClient.PortFor | src/services/http_client.cpp:58 | SSL connections go to port 443 and plain ones to port 80 |
| HttpClient.GetPath | src/services/http_client.cpp:36-83 | success needs the host to resolve and the server to answer OK; then the status is 200 and the body is a prefix of the reply that fits the buffer; on failure the body is empty, and an unresolved host leaves the reset response |
| HttpClient.Get | src/services/http_client.cpp:21-34 | a URL that does not parse fails and only clears the success flag; success means status 200 from a host that resolves |
| HttpClient.GetAsksServer | src/services/http_client.cpp:21-83 | fetching a well-formed URL asks the server for its host and path on the scheme's port, and succeeds exactly when the server answers OK |
| SocketHttp.ParseUrl | src/utils/http_client.cpp:22-57 | https is set exactly for "https://"; the URL is usable exactly when the host is non-empty; the host holds no ':' or '/'; the path starts with '/' |
| SocketHttp.DefaultPort | src/utils/http_client.cpp:25-47 | without a port in the host the port is 443 for https and 80 for http |
| SocketHttp.SchemeStripped | src/utils/http_client.cpp:31-47 | after the scheme, the host runs up to the first '/' and the path is the rest |
| SocketHttp.PortOverrides | src/utils/http_client.cpp:49-54 | a ':' in the host ends it and the text after it is the port read by stoi, whose exceptions propagate |
| SocketHttp.HostAndPort | src/utils/http_client.cpp:50-53 | in "host:port" the first ':' separates the host from the port |
| SocketHttp.EmptyHostRejected | src/utils/http_client.cpp:56 | a URL with an empty host is not usable |
| SocketHttp.HeaderLines | src/utils/http_client.cpp:87-89 | each extra header adds a "key: value" line ending in CRLF, and none adds nothing; the caller passes the headers in the `std::map`'s key order |
| SocketHttp.BuildRequest | src/utils/http_client.cpp:80-93 | the request starts with the request line for the path and ends with the blank line |
| SocketHttp.RequestHeaders | src/utils/http_client.cpp:82-91 | the header block starts after the request line's CRLF and ends with the blank line |
| SocketHttp.RequestEnd | src/utils/http_client.cpp:87-91 | the fixed headers, the extra lines and the last CRLF end with a blank line |
| SocketHttp.RequestLineFirst | src/utils/http_client.cpp:81 | the first line of the request is "GET path HTTP/1.1" when the path has no carriage return |
| SocketHttp.GatherWhole | src/utils/http_client.cpp:136-147 | receives without NUL bytes are collected whole and in order up to the first empty receive |
| SocketHttp.StatusToken | src/utils/http_client.cpp:169-174 | the status token holds no space |
| SocketHttp.StatusCode | src/utils/http_client.cpp:169-176 | without a space in the status line the code stays 0; otherwise it is stoi of the token, whose exceptions propagate |
| SocketHttp.TokenBetweenSpaces | src/utils/http_client.cpp:169-174 | in "HTTP/1.1 200 OK" the token is the text between the first two spaces |
| SocketHttp.SpaceAfter | src/utils/http_client.cpp:170-172 | the space found is the first after the word |
| SocketHttp.LastDuplicateWins | src/utils/http_client.cpp:178-189 | a header holds the value of the last line with its lower-cased, trimmed key; keys not in any line keep their earlier value |
| SocketHttp.HeaderText | src/utils/http_client.cpp:166-180 | the header lines are the block after its first line end |
| SocketHttp.ParseHead | src/utils/http_client.cpp:162-189 | the status code comes from the status line and the headers from the lines after it |
| SocketHttp.StatusLine | src/utils/http_client.cpp:166-167 | the status line is a prefix of the header block with no line end in it |
| SocketHttp.ParseResponse | src/utils/http_client.cpp:149-216 | no data and no blank line give their error messages; otherwise the earlier error message is kept, and a body that is not chunked is everything after the first blank line |
| SocketHttp.DecodeChunked | src/utils/http_client.cpp:191-214 | the decoded body only ever grows |
| SocketHttp.ChunkTurn | src/utils/http_client.cpp:199-210 | a chunk that is not the last moves the position forward and stays inside the body |
| SocketHttp.ChunkedRoundTrip | src/utils/http_client.cpp:191-214 | decoding a body in chunked coding gives back the data of its chunks, whatever bytes they hold |
| SocketHttp.RoundTripStep | src/utils/http_client.cpp:199-210 | decoding one sent chunk then the rest gives the chunk followed by the rest's data |
| SocketHttp.EncodedNotEmpty | src/utils/http_client.cpp:199 | a chunked body is never empty |
| SocketHttp.LastChunk | src/utils/http_client.cpp:206 | the last chunk of size zero ends decoding with nothing added |
| SocketHttp.TurnOfChunk | src/utils/http_client.cpp:200-210 | a size line, that many bytes and a line end give that piece and go on after it |
| SocketHttp.DecodeStep | src/utils/http_client.cpp:199-211 | decoding a body is its first piece followed by decoding what is after it |
| SocketHttp.ChunkStep | src/utils/http_client.cpp:199-211 | a chunk as a server sends it decodes to its data and decoding goes on after it |
| SocketHttp.ChunkRead | src/utils/http_client.cpp:200-210 | a size line naming the data's length reads the data and goes on after its line end |
| SocketHttp.ChunkLayout | src/utils/http_client.cpp:200-210 | a sent chunk puts the size, a line end, the data and a line end in order |
| SocketHttp.NegativeSizeStops | src/utils/http_client.cpp:204-206 | in the corrected loop a negative size ends decoding |
| SocketHttp.NegativeSizeLine | src/utils/http_client.cpp:200-203 | the size line of "-6\r\n" is "-6" |
| SocketHttp.NegativeSizeSpins | src/utils/http_client.cpp:199-211 | as written, the body "-6\r\n" moves the position back to where it started, so the loop never ends |
| SocketHttp.DoRequest | src/utils/http_client.cpp:98-217 | a failed resolution, connection or send gives its error message with status 0; otherwise the response is the parse of the gathered data, an https request carrying the missing-TLS message |
| SocketHttp.Get | src/utils/http_client.cpp:59-96 | a URL with an empty host gives "Invalid URL" and sends nothing; otherwise the request built for the host and path is sent to the host on the URL's port |
| Stoi.DigitRun | src/utils/http_client.cpp:204 | the digit run is the longest prefix of digits of the base |
| Stoi.Stoi | src/utils/http_client.cpp:204 | stoi succeeds exactly when digits follow the blanks, sign and hex prefix and the value fits in int; the value is then in int's range |
| Stoi.Hex | src/utils/http_client.cpp:204 | a size written in hexadecimal is a non-empty run of hex digits with no leading zero |
| Stoi.ValueOfHex | src/utils/http_client.cpp:204 | reading a size written in hexadecimal gives the size back |
| Stoi.StoiOfHex | src/utils/http_client.cpp:203-204 | a chunk size line, alone or before its line end, is read as the size it writes |
| Stoi.StoiReadsSign | src/utils/http_client.cpp:204 | a minus sign is read: "-6" in base 16 is minus six |
| Stoi.StoiStopsAtNonDigit | src/utils/http_client.cpp:175 | leading blanks are skipped and reading stops at the first non-digit |
| Stoi.StoiWithoutDigits | src/utils/http_client.cpp:52 | text without digits throws invalid_argument |
| Clock.Hour12 | src/modules/widgets/calendar_widget.cpp:279-282 | the 12-hour clock shows 1 to 12, the hour modulo 12 with 12 for midnight and noon |
| Clock.Hour24 | src/modules/widgets/calendar_widget.cpp:279-282 | a 12-hour reading and its half of the day name one hour of 0-23 |
| Clock.Hour12Inverts | src/modules/widgets/datetime_widget.cpp:90-98 | the 12-hour hour and the am/pm flag give the 24-hour hour back |
| Clock.Hour24Inverts | src/modules/widgets/datetime_widget.cpp:90-98 | every reading 1-12 is shown for some hour of each half of the day |
| Clock.TimeOfDayOf | src/modules/widgets/datetime_widget.cpp:85-88 | hours, minutes and seconds are in range and add up to the second of the day |
| Clock.ReadHourMinute | src/services/weather_service.cpp:175 | reading "h:MM" stays inside the text |
| Clock.HourMinuteReadsBack | src/modules/widgets/calendar_widget.cpp:288 | the "%d:%02d" text of an hour and minute reads back as the 12-hour hour and the minute |
| Clock.ClockTextReadsBack | src/services/weather_service.cpp:177-182 | the sunrise text of an hour and minute reads back as the minute, the 12-hour hour and the am/pm that gives the hour back |
| Scan.SkipSpace | src/services/ics_stream_parser.cpp:1040 | skipping white space stops at a character that is not white space |
| Scan.ScanInt | src/services/ics_stream_parser.cpp:1040 | a successful `%Nd` conversion consumes at least one character |
| Scan.ScanThreeDigits | src/services/ics_stream_parser.cpp:1040 | "%4d%2d%2d" over eight digits reads the year, month and day fields |
| Scan.ScanDateDigits | src/services/ics_stream_parser.cpp:133 | an eight-digit date reads as its three decimal fields |
| Scan.ScanDateTimeDigits | src/services/ics_stream_parser.cpp:1065 | "YYYYMMDDTHHMMSS" reads as its six decimal fields |
| Scan.ScanDigits | src/services/ics_stream_parser.cpp:1040 | a field of digits as wide as the conversion reads as its decimal value |

## Left out

- Floating point. The `float` and `double` values are outside the model: temperatures, humidity, wind and coordinates read by `strtof` and `atof`, and the `double` of a JSON number. Geocoding takes `strtof` as a parameter. WeatherService reads the weather code as the integer part of its number text.
- Json.ParseNumber: the number is kept as its source text, and the `std::stod` conversion is not modelled. So the `out_of_range` exception that `stod` throws for a number such as `1e999` is not modelled: the model accepts that text as a number.
- JsonLemmas.ParseStringify: Stringify writes a number as its source text. The source writes `ss << double` with six significant digits, so a number with more digits does not read back exactly in the source. `JsonValue::AsInt` is also left out, because it is a float-to-int cast.
- IcsRRule.ParseInt: the value is an unbounded integer. The overflow of a C `int` on more than nine digits is not modelled.
- IcsProps.ZoneToUtc, SocketHttp.DecodeChunkedAsWritten, CalendarWidget.LocalTime, WeatherWidget.LocalDays and Display.ToARGB8888 wrap a signed `int` overflow as 32-bit two's complement: the local-to-UTC shift, the `chunkSize + 2` (a size line of "7fffffff" makes the step negative), the `(int)utcTime + offset` in the calendar and weather widgets, and the `a << 24`. WeatherWidget.LocalDays therefore states whole local days only for a sum below 2^31. In C that overflow is undefined behaviour, so the model does not claim that a compiler gives these values.
- Undefined behaviour is a result, not a value:
  - reading past a month table is `OutOfBounds`, `MonthPastTable`, `MonthOutOfRange` or `Halted(UndefinedBehaviour)`;
  - an out-of-range POSIX rule month is `None`.
- Weekdays.FirstWeekday and Weekdays.NthWeekdayOfMonth use the true weekday (the corrected Zeller copy), and so do the members built on them: Weekdays.IsInUsDst, Weekdays.IsInEuDst, PosixTz.RuleDay and IcsExpand.WeekStart. The RRULE helper Weekdays.NthWeekdayForRRule and the BYDAY expansion IcsExpand.ByDayFrom that uses it do the same. The rows of Weekdays.FirstOccurrence, Weekdays.NthWeekdayIsNth, Weekdays.NthWeekdayWeekday, Weekdays.UsDstWindow, Weekdays.LastSundayOf31, Weekdays.EuDstWindow, PosixTz.CentralWindow and PosixTz.CetWindow are therefore about the true weekday. In C the Zeller sum is `unsigned` and wraps in years such as 2000-2019, where a March can start on the wrong weekday. The as-written helper is NthWeekdayAsWritten. NthWeekdayAsWrittenAgrees shows that from 2020 to 2099 the two agree, and SecondSundayOfMarch2019 shows a year where they differ.
- Weekdays.NthWeekdayForRRuleSpec: states the RRULE helper counted from the true weekday of the first. The C helper takes that weekday from its own `unsigned` Zeller sum, which wraps before 2020. That copy is NthWeekdayForRRuleAsWritten. NthWeekdayForRRuleAsWrittenAgrees shows that the two agree from 2020 to 2099, and SecondSundayForRRule2019 shows a month where they differ (see Findings).
- IcsProps.OffsetOnDate is the corrected TimezoneOffset, with the Hawaii test placed first. The code as written is TimezoneOffsetAsWritten (see Findings).
- PosixTz.GetTimezoneOffset uses the corrected CalculateOffset. The code as written is CalculateOffsetAsWritten (see Findings).
- Configuration.LoadFromFile reads through the corrected ReadBuffer. The code as written is ReadBufferAsWritten (see Findings).
- SocketHttp.ParseResponse uses the corrected DecodeChunked, in which a negative chunk size ends decoding. The code as written is DecodeChunkedAsWritten (see Findings).
- IcsStream.ProcessBuffer and IcsRRule.ParseRRule keep the BYDAY loop as written: an unreadable BYDAY character halts the parser (`RRuleHangs`). The corrected list, ByDayListCorrected, is proved alongside but is not what the stream parser uses.
- DateTimeWidget.Update reads the timer once per call. The source reads it again inside UpdateTime and UpdateDate, so a second that ticks between those reads is not modelled.
- IcsExpand.ExpandRecurringEvent is modelled as written, except for weekdays. Its BYDAY days (IcsExpand.ByDayFrom) and its week starts (IcsExpand.WeekStart) use the true weekday, not the wrapping Zeller copy, so BYDAY rules expanded in months before 2020 can differ from the C. A monthly rule whose BYMONTH is never reached walks months for ever, and the model returns `Unfinished` when its fuel runs out (JuneFromJanuaryNeverEnds). No corrected expansion is modelled, because the source gives no evident intended end.
- StringUtils.Split and StringUtils.ReplaceAll are modelled for a non-empty delimiter or pattern. With an empty one the C loops never end, which SplitEmptyDelimiterStalls and ReplaceAllEmptyNeverStops exhibit.
- Fuel bounds. Loops that need not end carry a `fuel` count. Running out of fuel gives `Unfinished`, `Halted(OutOfFuel)` or `Spins`, and the model says nothing about what the C code does after that many steps. The members with fuel are:
  - IcsExpand.ExpandLoop and IcsExpand.ExpandRecurringEvent (periods walked);
  - IcsStream.Recurring, IcsStream.HandleEvent, IcsStream.ProcessBuffer, IcsStream.Finish and IcsStream.FeedData;
  - CalendarService.FeedAll and CalendarService.FetchCalendar;
  - SocketHttp.DecodeChunkedAsWritten.
- LVGL object creation, styling and drawing are left out, because they are library calls with no value logic:
  - `Initialize`, `CreateUI`, `Refresh` and the destructors of all widgets;
  - CalendarWidget's `RenderDayEvents` and `ClearDayEvents`.

  The values these hand to labels are modelled, for example CalendarWidget.CellLabel, CalendarWidget.GetEventsForDay and WeatherWidget.UpdateDisplay.
- UpcomingEventsWidget's `ParseHexColor` is the same code as CalendarWidget's and is modelled once (CalendarWidget.ParseHexColor). Its `ClearEvents` is the same as CalendarWidget.ClearEvents.
- The `SetTimezone` methods of the widgets copy a name into a buffer. The zone is modelled as the offset parameter.
- WeatherWidget's `SetWeatherData` stores a float-bearing record, and its `Update` only calls UpdateDisplay. The integer parts are modelled through WeatherWidget.UpdateDisplay.
- WeatherService's `SetLocationName` is left out: it only copies the configured city and state names. WeatherService.FetchWeather and WeatherService.FetchForecast take the fetched body (or None for a failed request) as a parameter. The request URL, built with float formatting, is left out, and so is FetchWeather's copy of the configured city and state into the result.
- IcsStream.FeedData, IcsStream.ProcessBuffer and CalendarService.FetchCalendar search the whole buffer. The C `strstr` calls stop at an embedded NUL in an ICS body; the model does not, so a body holding a NUL is not modelled there. Geocoding.LookupZipcode, WeatherService.FetchWeather and WeatherService.FetchForecast do cut their bodies at the first NUL.
- `CalendarService::SetTimeWindow` only stores two numbers. They are the window parameters of CalendarService.FetchCalendar.
- `Display::Present` has an empty body. Display initialisation only allocates the frame buffer, which is modelled as `Screen.frame` being present.
- `StringUtils::Format` is a `vsnprintf` wrapper over C varargs and is not modelled.
- Sockets, DNS, TLS and the HTTP library become outcome parameters of HttpClient and SocketHttp. Logging is left out.
- The SD card's FAT file system is left out. UpdateService works on a map from path to contents, and the operations that can fail take their outcomes as parameters.
- src/core/kernel.cpp, src/core/application.cpp, src/ui/font_renderer.cpp, src/ui/loading_screen.cpp and src/services/file_logger.cpp are not part of this model. They are start-up, scheduling, glyph rendering and logging glue.
- The `main` function of scripts/convert_icons.py is not modelled, and neither are its PNG loading, resizing and file writing. Icons.Convert takes the resized image as a sequence of pixels.

## Findings

| source | as written | input that shows it | evidently intended | confidence | as-written member | corrected member |
|---|---|---|---|---|---|---|
| src/services/ics_stream_parser.cpp:964-976 | "Pacific/Honolulu" contains "Pacific", so it matches the US Pacific test before the Hawaii test is reached | TZID=Pacific/Honolulu | Honolulu is 10 hours west of UTC all year | not executed | IcsProps.HonoluluAsWritten | IcsProps.HonoluluCorrected |
| src/config/config.cpp:204-209 | the local second of the day is `unsigned` seconds plus an `int` offset, and below zero it wraps to a huge value | US Central, on the second Sunday of March before 06:00 UTC | daylight time starts at 02:00 local time | not executed | PosixTz.CentralSpringWrap | PosixTz.CentralOffset |
| src/config/config.cpp:110-114 | the '/' of the start rule is searched for to the end of the string, so the end rule's "/3" is read as the start hour | CET-1CEST,M3.5.0,M10.5.0/3 on the last Sunday of March, 01:00-02:00 UTC | the start rule without an hour starts at 02:00 local time | not executed | PosixTz.CetStartHourSpill | PosixTz.CetOffset |
| src/config/config.cpp:366-381 | 8192 bytes are read into an 8192-byte array and the terminator is stored at index 8192 | a config.json of 8192 bytes or more | a buffer with room for the terminator after the bytes read | not executed | Configuration.ReadBufferOverflow | Configuration.ReadBuffer |
| src/services/ics_stream_parser.cpp:541-548 | Zeller's sum is `unsigned`, and `- 2*j` can make it negative, so it wraps before the `% 7` | 1 March 2019 gives Tuesday (2) for a Friday | the weekday of the date | not executed | Weekdays.AsWrittenWrapsOn2019March1 | Weekdays.DayOfWeekCorrected |
| src/services/ics_stream_parser.cpp:881-904 | the Nth-weekday helper counts from the wrapped Zeller weekday of the first of the month | the second Sunday of March 2019 (the US summer-time start) comes out as the 13th | the 10th | not executed | Weekdays.SecondSundayOfMarch2019 | Weekdays.NthWeekdayIsNth |
| src/services/ics_stream_parser.cpp:227-234 | the RRULE helper takes the weekday of the first from its own `unsigned` Zeller sum, which wraps | RRULE:FREQ=MONTHLY;BYDAY=2SU over March 2019 gives 13 March, a Wednesday | the second Sunday, 10 March | not executed | Weekdays.SecondSundayForRRule2019 | Weekdays.NthWeekdayForRRuleSpec |
| src/modules/widgets/calendar_widget.cpp:469-484 | the rolling calendar backs up by the wrapped weekday | on 1 March 2019 the first cell is Wednesday 27 February | the grid starts on Sunday 24 February and shows today in its weekday column | not executed | CalendarWidget.RollingAsWrittenOn2019March1 | CalendarWidget.RollingCalendarShowsToday |
| src/utils/http_client.cpp:199-211 | a negative chunk size moves the read position backwards, and the loop never ends | the chunked body "-6\r\n" | a size below 1 ends the body | not executed | SocketHttp.NegativeSizeSpins | SocketHttp.NegativeSizeStops |
| src/services/ics_stream_parser.cpp:137-169 | a BYDAY character that is no '-', digit, day name or comma is never passed, so the loop spins | RRULE:FREQ=MONTHLY;BYDAY=+1MO (RFC 5545 allows the '+') | the unreadable character is skipped and the list ends at ';' | not executed | IcsRRule.ByDayHangs | IcsRRule.ByDayListCorrected |
