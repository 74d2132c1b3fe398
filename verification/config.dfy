/**
 The configuration loader: the defaults, the small JSON scanners it uses (white
 space, key search, quoted strings, array and object starts, the balancing '}'),
 and the parse of config.json into the time zone, the weather settings, the
 calendar list and the update switch.

 The scanners walk a C string; a position stands for a C pointer into it and
 `Text.At` reads NUL at and past the end. Reading the file is a parameter: its
 bytes, or None when it cannot be opened or read.
 */
module Configuration {
  import opened Wrappers
  import opened Text

  const NUL: char := 0 as char

  const MAX_CALENDARS: nat := 10
  /** The byte limit on the file and the size of the static read buffer. */
  const FILE_LIMIT: nat := 8192
  /** The sizes of the destination arrays, terminator included. */
  const TIMEZONE_SIZE: nat := 64
  const ZIPCODE_SIZE: nat := 16
  const UNITS_SIZE: nat := 16
  const URL_SIZE: nat := 512
  const NAME_SIZE: nat := 64
  const COLOR_SIZE: nat := 16
  /** The size of the buffer the quoted search key is formatted into. */
  const KEY_SIZE: nat := 128

  datatype Grid = Grid(columns: int, rows: int, paddingX: int, paddingY: int, gapX: int, gapY: int)

  datatype Calendar = Calendar(url: string, name: string, color: string)

  /** The settings; `calendars` holds the first nCalendars entries of the C array. */
  datatype Config = Config(timezone: string, zipcode: string, units: string, grid: Grid,
                           calendars: seq<Calendar>, nWidgets: int, updateEnabled: bool)

  /** GetDefault. */
  function Default(): Config {
    Config("UTC", "", "imperial", Grid(12, 8, 30, 30, 15, 15), [], 0, false)
  }

  // ---------------------------------------------------------------------------
  // The JSON scanners
  // ---------------------------------------------------------------------------

  /** The white space SkipWhitespace passes over: space, tab, LF and CR. */
  predicate IsJsonSpace(c: char) {
    c == ' ' || c == '\t' || c == '\n' || c == '\r'
  }

  /** SkipWhitespace: the first position at or after p that is not white space. */
  function SkipWhitespace(s: string, p: nat): (q: nat)
    ensures p <= q && !IsJsonSpace(At(s, q))
    ensures q <= |s| || q == p
    ensures forall k | p <= k < q :: IsJsonSpace(At(s, k))
    decreases |s| - p
  {
    if IsJsonSpace(At(s, p)) then SkipWhitespace(s, p + 1) else p
  }

  /** The quoted key `"key"` as formatted into the 128-byte search buffer. */
  function SearchKey(key: string): string {
    Truncate("\"" + key + "\"", KEY_SIZE)
  }

  /**
   FindKey: the position of the value after the first occurrence of the quoted key
   at or after `from`; None when there is none or when that occurrence is not
   followed by ':' after white space. Later occurrences are not tried.
   */
  function FindKey(s: string, from: nat, key: string): (v: Option<nat>)
    ensures v.Some? ==> from < v.value && !IsJsonSpace(At(s, v.value))
  {
    match Find(s, SearchKey(key), from)
    case None => None
    case Some(i) =>
      var c := SkipWhitespace(s, i + |SearchKey(key)|);
      if At(s, c) != ':' then None else Some(SkipWhitespace(s, c + 1))
  }

  /**
   The copy loop of ParseString from p with room for `room` more characters: it
   stops at NUL, at '"' or when full; a backslash followed by a character is
   dropped and that character copied as it is. Also the position reached.
   */
  function CopyChars(s: string, p: nat, room: nat): (r: (string, nat))
    ensures |r.0| <= room && p <= r.1
    ensures NUL !in r.0
    decreases |s| - p
  {
    if At(s, p) == NUL || At(s, p) == '"' || room == 0 then ("", p)
    else
      var q := if At(s, p) == '\\' && At(s, p + 1) != NUL then p + 1 else p;
      var rest := CopyChars(s, q + 1, room - 1);
      ([At(s, q)] + rest.0, rest.1)
  }

  /**
   ParseString with a destination of maxLen bytes: None unless a '"' follows the
   white space at p; otherwise the copied text (at most maxLen - 1 characters) and
   the position after the closing '"' if the copy stopped at one.
   */
  function ParseString(s: string, p: nat, maxLen: nat): (r: Option<(string, nat)>)
    requires maxLen >= 1
    ensures r.Some? <==> At(s, SkipWhitespace(s, p)) == '"'
    ensures r.Some? ==> |r.value.0| <= maxLen - 1 && p < r.value.1
  {
    var q := SkipWhitespace(s, p);
    if At(s, q) != '"' then None
    else
      var (out, e) := CopyChars(s, q + 1, maxLen - 1);
      Some((out, if At(s, e) == '"' then e + 1 else e))
  }

  /** FindArrayStart: the position after a '[' that follows the white space at p. */
  function FindArrayStart(s: string, p: nat): (r: Option<nat>)
    ensures r.Some? <==> At(s, SkipWhitespace(s, p)) == '['
    ensures r.Some? ==> r.value == SkipWhitespace(s, p) + 1
  {
    var q := SkipWhitespace(s, p);
    if At(s, q) != '[' then None else Some(q + 1)
  }

  /** FindObjectStart: the position after a '{' that follows the white space at p. */
  function FindObjectStart(s: string, p: nat): (r: Option<nat>)
    ensures r.Some? <==> At(s, SkipWhitespace(s, p)) == '{'
    ensures r.Some? ==> r.value == SkipWhitespace(s, p) + 1
  {
    var q := SkipWhitespace(s, p);
    if At(s, q) != '{' then None else Some(q + 1)
  }

  /** The skip over a string inside FindObjectEnd, from after the opening '"': it stops at the closing '"' or at NUL. */
  function SkipString(s: string, p: nat): (q: nat)
    ensures p <= q && (At(s, q) == NUL || At(s, q) == '"')
    decreases |s| - p
  {
    if At(s, p) == NUL || At(s, p) == '"' then p
    else if At(s, p) == '\\' && At(s, p + 1) != NUL then SkipString(s, p + 2)
    else SkipString(s, p + 1)
  }

  /**
   The loop of FindObjectEnd at nesting depth `depth`: the position of the '}'
   that closes depth 1, or where the scan ran out (past an unterminated string
   that is one beyond the terminator).
   */
  function ObjectEnd(s: string, p: nat, depth: nat): (e: nat)
    requires depth >= 1
    ensures p <= e
    decreases |s| - p
  {
    if At(s, p) == NUL then p
    else if At(s, p) == '{' then ObjectEnd(s, p + 1, depth + 1)
    else if At(s, p) == '}' then (if depth == 1 then p else ObjectEnd(s, p + 1, depth - 1))
    else if At(s, p) == '"' then ObjectEnd(s, SkipString(s, p + 1) + 1, depth)
    else ObjectEnd(s, p + 1, depth)
  }

  /** FindObjectEnd, called just after an object's '{'. */
  function FindObjectEnd(s: string, p: nat): (e: nat)
    ensures p <= e
  {
    ObjectEnd(s, p, 1)
  }

  // ---------------------------------------------------------------------------
  // A reference for FindObjectEnd: a character automaton
  // ---------------------------------------------------------------------------

  /** Where the automaton is: in JSON text, inside a string, or just after a backslash in a string. */
  datatype Mode = InText | InString | AfterBackslash

  /**
   Reads s from k one character at a time at the given depth and mode; the
   position of the '}' read in text at depth 1, or None if the string ends first.
   */
  function Closing(s: string, k: nat, depth: nat, mode: Mode): (r: Option<nat>)
    requires depth >= 1
    ensures r.Some? ==> k <= r.value < |s| && s[r.value] == '}'
    decreases |s| - k
  {
    if k >= |s| then None
    else
      match mode
      case InText =>
        if s[k] == '{' then Closing(s, k + 1, depth + 1, InText)
        else if s[k] == '}' then (if depth == 1 then Some(k) else Closing(s, k + 1, depth - 1, InText))
        else if s[k] == '"' then Closing(s, k + 1, depth, InString)
        else Closing(s, k + 1, depth, InText)
      case InString =>
        if s[k] == '"' then Closing(s, k + 1, depth, InText)
        else if s[k] == '\\' then Closing(s, k + 1, depth, AfterBackslash)
        else Closing(s, k + 1, depth, InString)
      case AfterBackslash => Closing(s, k + 1, depth, InString)
  }

  /** SkipString followed by one step is the automaton's walk through a string. */
  lemma {:induction false} SkipStringIsInString(s: string, p: nat, depth: nat)
    requires NUL !in s && depth >= 1
    ensures var q := SkipString(s, p);
            Closing(s, p, depth, InString) == if q < |s| then Closing(s, q + 1, depth, InText) else None
    decreases |s| - p
  {
    if p < |s| && s[p] != '"' {
      if s[p] == '\\' && p + 1 < |s| {
        SkipStringIsInString(s, p + 2, depth);
      } else if s[p] == '\\' {
        assert Closing(s, p + 1, depth, AfterBackslash) == None;
      } else {
        SkipStringIsInString(s, p + 1, depth);
      }
    }
  }

  /**
   In a string without NUL, the loop of FindObjectEnd stops at the '}' the
   automaton finds, and otherwise at or past the end of the string.
   */
  lemma {:induction false} ObjectEndIsClosing(s: string, p: nat, depth: nat)
    requires NUL !in s && depth >= 1
    ensures match Closing(s, p, depth, InText)
            case Some(k) => ObjectEnd(s, p, depth) == k
            case None => ObjectEnd(s, p, depth) >= |s|
    decreases |s| - p, 1
  {
    if p < |s| {
      if s[p] == '{' {
        ObjectEndIsClosing(s, p + 1, depth + 1);
      } else if s[p] == '}' {
        if depth > 1 {
          ObjectEndIsClosing(s, p + 1, depth - 1);
        }
      } else if s[p] == '"' {
        ObjectEndAtString(s, p, depth);
      } else {
        ObjectEndIsClosing(s, p + 1, depth);
      }
    }
  }

  /** ObjectEndIsClosing at the opening '"' of a string. */
  lemma {:induction false} ObjectEndAtString(s: string, p: nat, depth: nat)
    requires NUL !in s && depth >= 1 && p < |s| && s[p] == '"'
    ensures match Closing(s, p, depth, InText)
            case Some(k) => ObjectEnd(s, p, depth) == k
            case None => ObjectEnd(s, p, depth) >= |s|
    decreases |s| - p, 0
  {
    var q := SkipString(s, p + 1);
    SkipStringIsInString(s, p + 1, depth);
    assert Closing(s, p, depth, InText) == Closing(s, p + 1, depth, InString);
    assert ObjectEnd(s, p, depth) == ObjectEnd(s, q + 1, depth);
    if q < |s| {
      ObjectEndIsClosing(s, q + 1, depth);
    }
  }

  // ---------------------------------------------------------------------------
  // The escaping ParseString undoes
  // ---------------------------------------------------------------------------

  /** A character as written inside a JSON string: '"' and '\' get a backslash. */
  function EscapeChar(c: char): string {
    if c == '"' || c == '\\' then ['\\', c] else [c]
  }

  function Escape(v: string): string {
    if v == [] then [] else EscapeChar(v[0]) + Escape(v[1..])
  }

  /** s holds the escaped form of v at p, followed by a closing '"'. */
  predicate QuotedAt(s: string, p: nat, v: string)
    decreases |v|
  {
    if v == [] then At(s, p) == '"'
    else if v[0] == '"' || v[0] == '\\' then At(s, p) == '\\' && At(s, p + 1) == v[0] && QuotedAt(s, p + 2, v[1..])
    else At(s, p) == v[0] && QuotedAt(s, p + 1, v[1..])
  }

  /** Escape(v) and a '"' written at p is what QuotedAt reads. */
  lemma {:induction false} EscapedIsQuoted(s: string, p: nat, v: string)
    requires HasAt(s, p, Escape(v) + "\"")
    ensures QuotedAt(s, p, v)
    decreases |v|
  {
    var e := Escape(v) + "\"";
    assert s[p..p + |e|] == e;
    if v == [] {
      assert s[p] == e[0];
    } else {
      var w := |EscapeChar(v[0])|;
      var t := Escape(v[1..]) + "\"";
      assert e == EscapeChar(v[0]) + t;
      assert s[p] == e[0];
      assert s[p + w - 1] == e[w - 1];
      assert HasAt(s, p + w, t) by {
        assert s[p + w..p + w + |t|] == e[w..];
      }
      EscapedIsQuoted(s, p + w, v[1..]);
    }
  }

  function Min(a: int, b: int): int {
    if a < b then a else b
  }

  /**
   The copy loop reads an escaped text back: the first `room` characters of v,
   and when all of v fits it stops at the closing '"', |Escape(v)| further on.
   */
  lemma {:induction false} CopyQuoted(s: string, p: nat, room: nat, v: string)
    requires NUL !in v && QuotedAt(s, p, v)
    ensures CopyChars(s, p, room).0 == v[..Min(|v|, room)]
    ensures |v| <= room ==> CopyChars(s, p, room).1 == p + |Escape(v)|
    decreases |v|
  {
    if v != [] && room > 0 {
      var w := |EscapeChar(v[0])|;
      CopyQuoted(s, p + w, room - 1, v[1..]);
      assert v[..Min(|v|, room)] == [v[0]] + v[1..][..Min(|v| - 1, room - 1)];
    }
  }

  /** A '"', Escape(v) and a '"' written at q: an opening quote and what QuotedAt reads. */
  lemma {:induction false} QuotedStringAt(s: string, q: nat, v: string)
    requires HasAt(s, q, "\"" + Escape(v) + "\"")
    ensures At(s, q) == '"' && QuotedAt(s, q + 1, v)
  {
    var e := "\"" + Escape(v) + "\"";
    assert s[q..q + |e|] == e;
    assert At(s, q) == e[0];
    assert HasAt(s, q + 1, Escape(v) + "\"") by {
      assert s[q + 1..q + |e|] == e[1..];
    }
    EscapedIsQuoted(s, q + 1, v);
  }

  /**
   ParseString of a quoted, escaped text after white space: the text, cut to
   maxLen - 1 characters, and when it fits, the position after the closing '"'.
   */
  lemma {:induction false} ParseStringOfQuoted(s: string, p: nat, maxLen: nat, v: string)
    requires maxLen >= 1 && NUL !in v
    requires At(s, SkipWhitespace(s, p)) == '"' && QuotedAt(s, SkipWhitespace(s, p) + 1, v)
    ensures ParseString(s, p, maxLen).Some?
    ensures ParseString(s, p, maxLen).value.0 == v[..Min(|v|, maxLen - 1)]
    ensures |v| <= maxLen - 1 ==> ParseString(s, p, maxLen).value.1 == SkipWhitespace(s, p) + |Escape(v)| + 2
  {
    var q := SkipWhitespace(s, p);
    CopyQuoted(s, q + 1, maxLen - 1, v);
    QuotedEnd(s, q + 1, v);
  }

  /** The closing '"' of QuotedAt sits |Escape(v)| further on. */
  lemma {:induction false} QuotedEnd(s: string, p: nat, v: string)
    requires QuotedAt(s, p, v)
    ensures At(s, p + |Escape(v)|) == '"'
    decreases |v|
  {
    if v != [] {
      QuotedEnd(s, p + |EscapeChar(v[0])|, v[1..]);
    }
  }

  // ---------------------------------------------------------------------------
  // Reading the file
  // ---------------------------------------------------------------------------

  /** The text of a buffer read as a C string: up to the first NUL. */
  function CString(b: string): (t: string)
    ensures t <= b && NUL !in t
    ensures |t| < |b| ==> b[|t|] == NUL
  {
    match FindChar(b, NUL, 0)
    case Some(i) => b[..i]
    case None => b
  }

  /**
   The buffer as written: the file cut to 8192 bytes is read into the 8192-byte
   array and the terminator stored at index bytesRead, one past the array when
   8192 bytes were read (None: undefined behaviour).
   */
  function ReadBufferAsWritten(file: string): (r: Option<string>)
  {
    var n := if |file| > FILE_LIMIT then FILE_LIMIT else |file|;
    if n < FILE_LIMIT then Some(CString(file[..n])) else None
  }

  /** The buffer as intended: the first 8192 bytes of the file with room for the terminator, up to the first NUL. */
  function ReadBuffer(file: string): (t: string)
    ensures |t| <= FILE_LIMIT && NUL !in t && t <= file
    ensures |file| <= FILE_LIMIT && NUL !in file ==> t == file
  {
    CString(if |file| > FILE_LIMIT then file[..FILE_LIMIT] else file)
  }

  /** The two agree below the limit; a file of 8192 bytes or more stores the terminator out of bounds. */
  lemma {:induction false} ReadBufferOverflow(file: string)
    ensures |file| < FILE_LIMIT ==> ReadBufferAsWritten(file) == Some(ReadBuffer(file))
    ensures |file| >= FILE_LIMIT <==> ReadBufferAsWritten(file).None?
  {
    if |file| < FILE_LIMIT {
      assert file[..|file|] == file;
    }
  }

  // ---------------------------------------------------------------------------
  // LoadFromFile
  // ---------------------------------------------------------------------------

  /** A setting read with ParseString from the value at v into a destination of `size` bytes; unchanged when absent or unquoted. */
  function StringField(s: string, v: Option<nat>, size: nat, current: string): (r: string)
    requires size >= 1
    ensures r == current || |r| <= size - 1
    ensures v.None? ==> r == current
  {
    if v.None? then current
    else match ParseString(s, v.value, size)
      case None => current
      case Some(t) => t.0
  }

  /** FindKey limited to an object: the value only counts when it starts before the object's end. */
  function KeyBefore(s: string, from: nat, key: string, end: nat): (v: Option<nat>)
    ensures v.Some? ==> v.value < end && FindKey(s, from, key) == v
  {
    match FindKey(s, from, key)
    case Some(v) => if v < end then Some(v) else None
    case None => None
  }

  /** One calendar object between its '{' and its end: url, name and color, each empty when missing. */
  function ParseCalendar(s: string, start: nat, end: nat): (c: Calendar)
    ensures |c.url| < URL_SIZE && |c.name| < NAME_SIZE && |c.color| < COLOR_SIZE
  {
    Calendar(StringField(s, KeyBefore(s, start, "url", end), URL_SIZE, ""),
             StringField(s, KeyBefore(s, start, "name", end), NAME_SIZE, ""),
             StringField(s, KeyBefore(s, start, "color", end), COLOR_SIZE, ""))
  }

  /** A calendar entry as LoadFromFile keeps it. */
  predicate Kept(c: Calendar) {
    c.url != [] && |c.url| < URL_SIZE && |c.name| < NAME_SIZE && |c.color| < COLOR_SIZE
  }

  /**
   The loop over the calendars array from p, having kept acc: ',' is skipped, ']'
   or anything but an object stops, and an object is kept only if its url is not
   empty; at most MAX_CALENDARS are kept.
   */
  function CalendarsFrom(s: string, p: nat, acc: seq<Calendar>): (r: seq<Calendar>)
    requires |acc| <= MAX_CALENDARS && forall c <- acc :: Kept(c)
    ensures acc <= r && |r| <= MAX_CALENDARS && forall c <- r :: Kept(c)
    decreases |s| - p
  {
    if At(s, p) == NUL || |acc| >= MAX_CALENDARS then acc
    else
      var q := SkipWhitespace(s, p);
      if At(s, q) == ']' then acc
      else if At(s, q) == ',' then CalendarsFrom(s, q + 1, acc)
      else match FindObjectStart(s, q)
        case None => acc
        case Some(o) =>
          var e := FindObjectEnd(s, o);
          var c := ParseCalendar(s, o, e);
          CalendarsFrom(s, if At(s, e) == '}' then e + 1 else e, KeepCalendar(acc, c))
  }

  /** The list after one calendar object: appended when its url is not empty. */
  function KeepCalendar(acc: seq<Calendar>, c: Calendar): (r: seq<Calendar>)
    requires |acc| < MAX_CALENDARS && forall d <- acc :: Kept(d)
    requires |c.url| < URL_SIZE && |c.name| < NAME_SIZE && |c.color| < COLOR_SIZE
    ensures acc <= r && |r| <= MAX_CALENDARS && forall d <- r :: Kept(d)
    ensures r == acc <==> c.url == []
  {
    if c.url != [] then acc + [c] else acc
  }

  /** The calendars setting: the array after the "calendars" key, or none. */
  function Calendars(s: string): (r: seq<Calendar>)
    ensures |r| <= MAX_CALENDARS && forall c <- r :: Kept(c)
    ensures FindKey(s, 0, "calendars").None? ==> r == []
  {
    match FindKey(s, 0, "calendars")
    case None => []
    case Some(k) =>
      match FindArrayStart(s, k)
      case None => []
      case Some(a) => CalendarsFrom(s, a, [])
  }

  /** The update switch: the "enabled" value after the "update" key begins with "true" (`strncmp(ep, "true", 4)`). */
  function UpdateEnabled(s: string): (r: bool)
    ensures r ==> Contains(s, "true")
  {
    match FindKey(s, 0, "update")
    case None => false
    case Some(u) =>
      match FindKey(s, u, "enabled")
      case None => false
      case Some(e) =>
        var ep := SkipWhitespace(s, e);
        if HasAt(s, ep, "true") then (assert HasAt(s, ep, "true"); true) else false
  }

  /** The time zone setting: the string after the first "timezone" key, else "UTC". */
  function Timezone(s: string): (r: string)
    ensures |r| < TIMEZONE_SIZE
  {
    StringField(s, FindKey(s, 0, "timezone"), TIMEZONE_SIZE, Default().timezone)
  }

  /** A weather setting: the string after the first key found after the first "weather" key, else the default. */
  function WeatherField(s: string, key: string, size: nat, default: string): (r: string)
    requires size >= 1 && |default| < size
    ensures |r| < size
  {
    match FindKey(s, 0, "weather")
    case None => default
    case Some(w) => StringField(s, FindKey(s, w, key), size, default)
  }

  /** The settings parsed from the buffer text s, starting from the defaults. */
  function Load(s: string): (c: Config)
    ensures |c.timezone| < TIMEZONE_SIZE && |c.zipcode| < ZIPCODE_SIZE && |c.units| < UNITS_SIZE
    ensures c.grid == Default().grid && c.nWidgets == 0
    ensures |c.calendars| <= MAX_CALENDARS && forall k | 0 <= k < |c.calendars| :: Kept(c.calendars[k])
  {
    var d := Default();
    Config(Timezone(s), WeatherField(s, "zipcode", ZIPCODE_SIZE, d.zipcode), WeatherField(s, "units", UNITS_SIZE, d.units),
           d.grid, Calendars(s), d.nWidgets, UpdateEnabled(s))
  }

  /** LoadFromFile: false with the defaults when the file cannot be read, else true with the parsed settings. */
  function LoadFromFile(file: Option<string>): (r: (bool, Config))
    ensures r.0 <==> file.Some?
    ensures file.None? ==> r.1 == Default()
  {
    match file
    case None => (false, Default())
    case Some(f) => (true, Load(ReadBuffer(f)))
  }

  // ---------------------------------------------------------------------------
  // Properties of the loader
  // ---------------------------------------------------------------------------

  /** A quoted key cannot be found in a text without '"'. */
  lemma {:induction false} NoQuoteNoKey(s: string, from: nat, key: string)
    requires '"' !in s
    ensures FindKey(s, from, key).None?
  {
    assert SearchKey(key)[0] == '"';
    FirstCharAbsent(s, SearchKey(key));
    FindSpec(s, SearchKey(key), from);
  }

  /** A text without any '"' (in particular an empty file) leaves every setting at its default. */
  lemma {:induction false} NoKeysKeepsDefault(s: string)
    requires '"' !in s
    ensures Load(s) == Default()
  {
    NoQuoteNoKey(s, 0, "timezone");
    NoQuoteNoKey(s, 0, "weather");
    NoQuoteNoKey(s, 0, "calendars");
    NoQuoteNoKey(s, 0, "update");
  }

  /**
   The time zone is read from the first `"timezone"`: when it is followed by ':'
   and a quoted, escaped name, the setting is that name cut to 63 characters.
   */
  lemma {:induction false} LoadTimezone(s: string, i: nat, c: nat, v: string)
    requires NUL !in v
    requires HasAt(s, i, "\"timezone\"") && forall j | 0 <= j < i :: !HasAt(s, j, "\"timezone\"")
    requires c == SkipWhitespace(s, i + 10) && At(s, c) == ':'
    requires HasAt(s, SkipWhitespace(s, c + 1), "\"" + Escape(v) + "\"")
    ensures Load(s).timezone == v[..Min(|v|, TIMEZONE_SIZE - 1)]
  {
    assert SearchKey("timezone") == "\"timezone\"";
    FindKeyValue(s, 0, "timezone", i, c);
    TimezoneOfQuoted(s, SkipWhitespace(s, c + 1), v);
  }

  /** The time zone setting when the "timezone" value is a quoted, escaped name. */
  lemma {:induction false} TimezoneOfQuoted(s: string, w: nat, v: string)
    requires NUL !in v && FindKey(s, 0, "timezone") == Some(w)
    requires HasAt(s, w, "\"" + Escape(v) + "\"")
    ensures Timezone(s) == v[..Min(|v|, TIMEZONE_SIZE - 1)]
  {
    QuotedStringAt(s, w, v);
    assert SkipWhitespace(s, w) == w;
    ParseStringOfQuoted(s, w, TIMEZONE_SIZE, v);
    var r := ParseString(s, w, TIMEZONE_SIZE);
    assert StringField(s, Some(w), TIMEZONE_SIZE, "UTC") == r.value.0;
  }

  /**
   FindKey against the occurrences of the quoted key: with the first one at or
   after `from` at i, the value position after its ':' and white space, or None
   when no ':' follows.
   */
  lemma {:induction false} FindKeyAt(s: string, from: nat, key: string, i: nat)
    requires from <= i && HasAt(s, i, SearchKey(key))
    requires forall j | from <= j < i :: !HasAt(s, j, SearchKey(key))
    ensures var c := SkipWhitespace(s, i + |SearchKey(key)|);
            FindKey(s, from, key) == if At(s, c) == ':' then Some(SkipWhitespace(s, c + 1)) else None
  {
    FindSpec(s, SearchKey(key), from);
  }

  /** FindKeyAt when the key is followed by ':'. */
  lemma {:induction false} FindKeyValue(s: string, from: nat, key: string, i: nat, c: nat)
    requires from <= i && HasAt(s, i, SearchKey(key))
    requires forall j | from <= j < i :: !HasAt(s, j, SearchKey(key))
    requires c == SkipWhitespace(s, i + |SearchKey(key)|) && At(s, c) == ':'
    ensures FindKey(s, from, key) == Some(SkipWhitespace(s, c + 1))
  {
    FindKeyAt(s, from, key, i);
  }

  /** FindKey is None when the quoted key does not occur at or after `from`. */
  lemma {:induction false} FindKeyAbsent(s: string, from: nat, key: string)
    requires forall j | from <= j :: !HasAt(s, j, SearchKey(key))
    ensures FindKey(s, from, key).None?
  {
    FindSpec(s, SearchKey(key), from);
  }

  /**
   The update switch from the text: with the first `"update"` at i followed by
   ':', and the first `"enabled"` after that at j followed by ':', the switch is on
   exactly when the value text starts with "true".
   */
  lemma {:induction false} UpdateFromText(s: string, i: nat, c: nat, j: nat, d: nat)
    requires HasAt(s, i, "\"update\"") && forall k | 0 <= k < i :: !HasAt(s, k, "\"update\"")
    requires c == SkipWhitespace(s, i + 8) && At(s, c) == ':'
    requires SkipWhitespace(s, c + 1) <= j && HasAt(s, j, "\"enabled\"")
    requires forall k | SkipWhitespace(s, c + 1) <= k < j :: !HasAt(s, k, "\"enabled\"")
    requires d == SkipWhitespace(s, j + 9) && At(s, d) == ':'
    ensures UpdateEnabled(s) <==> HasAt(s, SkipWhitespace(s, d + 1), "true")
  {
    assert SearchKey("update") == "\"update\"";
    assert SearchKey("enabled") == "\"enabled\"";
    var u := SkipWhitespace(s, c + 1);
    var e := SkipWhitespace(s, d + 1);
    FindKeyValue(s, 0, "update", i, c);
    FindKeyValue(s, u, "enabled", j, d);
    assert SkipWhitespace(s, e) == e;
  }
}
