/**
 The geocoding service's response parser: the first result object of an
 Open-Meteo search answer gives the city, country code, state and coordinates,
 the state name is abbreviated through the table of US states, and the location
 is valid when it has a city and two non-zero coordinates. The HTTP request is a
 parameter (the body it fetched, or None), and so is `strtof`, the C library's
 reading of a floating-point number.
 */
module Geocoding {
  import opened Wrappers
  import opened Text
  import WeatherService

  const CITY_SIZE: nat := 48
  const STATE_SIZE: nat := 32
  const ABBREV_SIZE: nat := 8
  const COUNTRY_SIZE: nat := 8

  const GEO_HOST: string := "geocoding-api.open-meteo.com"

  /** GeoLocation, with the coordinates as the reals `strtof` stands for. */
  datatype GeoLocation = GeoLocation(city: string, state: string, stateAbbrev: string, country: string,
                                     latitude: real, longitude: real, valid: bool)

  /** The location LookupZipcode clears before anything else. */
  const EMPTY: GeoLocation := GeoLocation("", "", "", "", 0.0, 0.0, false)

  // ---------------------------------------------------------------------------
  // ExtractString and ExtractFloat
  // ---------------------------------------------------------------------------

  predicate IsBlank(c: char) { c == ' ' || c == '\t' }

  /** The first index at or after p that does not hold a space or a tab. */
  function SkipBlanks(s: string, p: nat): (q: nat)
    ensures p <= q && (q < |s| ==> !IsBlank(s[q]))
    ensures forall i | p <= i < q :: i < |s| && IsBlank(s[i])
    decreases |s| - p
  {
    if p < |s| && IsBlank(s[p]) then
      var q := SkipBlanks(s, p + 1);
      assert forall i | p + 1 <= i < q :: i < |s| && IsBlank(s[i]);
      q
    else p
  }

  /** Where the value of `key` starts: after the first ':' that follows the key's first occurrence at or after `from`, and its blanks. */
  function ValueStart(s: string, from: nat, key: string): (r: Option<nat>)
    ensures r.Some? ==> r.value > from && (r.value < |s| ==> !IsBlank(s[r.value]))
  {
    var k := Find(s, key, from);
    if k.None? then None
    else
      var c := FindChar(s, ':', k.value);
      if c.None? then None else Some(SkipBlanks(s, c.value + 1))
  }

  /**
   ExtractString: the quoted value of `key` at or after `from`, cut to maxLen - 1
   characters. Anything but a '"' where the value starts, and a missing closing
   quote, fail.
   */
  function ExtractString(s: string, from: nat, key: string, maxLen: nat): (r: Option<string>)
    requires maxLen >= 1
    ensures r.Some? ==> |r.value| < maxLen && '"' !in r.value
    ensures r.Some? ==> ValueStart(s, from, key).Some? && At(s, ValueStart(s, from, key).value) == '"'
  {
    var p := ValueStart(s, from, key);
    if p.None? || At(s, p.value) != '"' then None
    else
      var e := FindChar(s, '"', p.value + 1);
      if e.None? then None
      else
        var v := s[p.value + 1..e.value];
        assert forall i | 0 <= i < |v| :: v[i] == s[p.value + 1 + i];
        Some(Truncate(v, maxLen))
  }

  /** ExtractFloat: `strtof` of the text where the value of `key` starts, or None when key or ':' is missing. */
  function ExtractFloat(s: string, from: nat, key: string, strtof: string -> real): (r: Option<real>)
    ensures r.Some? <==> ValueStart(s, from, key).Some?
    ensures r.Some? ==> r.value == strtof(Suffix(s, ValueStart(s, from, key).value))
  {
    var p := ValueStart(s, from, key);
    if p.None? then None else Some(strtof(Suffix(s, p.value)))
  }

  /** The text `key: blanks "v"` that a string field is written as. */
  function Field(key: string, blanks: string, v: string): (t: string)
    ensures |t| == |key| + |blanks| + |v| + 3
    ensures PlacedAt(t, 0, key) && t[|key|] == ':' && PlacedAt(t, |key| + 1, blanks)
    ensures t[|key| + 1 + |blanks|] == '"' && PlacedAt(t, |key| + 2 + |blanks|, v) && t[|t| - 1] == '"'
  {
    key + [':'] + blanks + ['"'] + v + ['"']
  }

  /**
   A key whose first character pre lacks, followed by ':', blanks and a quoted
   quote-free v, gives v cut to the buffer.
   */
  lemma {:induction false} ExtractStringOf(pre: string, key: string, blanks: string, v: string, rest: string, maxLen: nat)
    requires maxLen >= 1 && |key| > 0 && key[0] !in pre && ':' !in key
    requires forall i | 0 <= i < |blanks| :: IsBlank(blanks[i])
    requires '"' !in v
    ensures ExtractString(pre + Field(key, blanks, v) + rest, 0, key, maxLen) == Some(Truncate(v, maxLen))
  {
    var f := Field(key, blanks, v);
    var s := pre + f + rest;
    assert s == pre + key + (f[|key|..] + rest) by {
      assert f == key + f[|key|..] by { assert f[..|key|] == key; }
    }
    WeatherService.KeyFirstAt(pre, key, f[|key|..] + rest, 0);
    assert PlacedAt(s, |pre|, f) by {
      forall j | 0 <= j < |f| ensures s[|pre| + j] == f[j] { assert s[|pre| + j] == (pre + f)[|pre| + j]; }
    }
    ExtractStringAt(s, 0, key, |pre|, f, blanks, v, maxLen);
  }

  /** A placed field places its pieces. */
  lemma {:induction false} FieldPlaced(s: string, i: nat, f: string, key: string, blanks: string, v: string)
    requires f == Field(key, blanks, v) && PlacedAt(s, i, f)
    ensures var c := i + |key|;
            var q := c + 1 + |blanks|;
            q + |v| + 1 < |s| && PlacedAt(s, i, key) && s[c] == ':' && PlacedAt(s, c + 1, blanks) && s[q] == '"'
            && PlacedAt(s, q + 1, v) && s[q + 1 + |v|] == '"'
  {
    var c := i + |key|;
    var q := c + 1 + |blanks|;
    assert s[c] == f[|key|];
    assert s[q] == f[|key| + 1 + |blanks|];
    assert s[q + 1 + |v|] == f[|f| - 1];
    forall j | 0 <= j < |key| ensures s[i + j] == key[j] { assert s[i + j] == f[j]; }
    forall j | 0 <= j < |blanks| ensures s[c + 1 + j] == blanks[j] { assert s[c + 1 + j] == f[|key| + 1 + j]; }
    forall j | 0 <= j < |v| ensures s[q + 1 + j] == v[j] { assert s[q + 1 + j] == f[|key| + 2 + |blanks| + j]; }
  }

  /** ExtractString where the first occurrence of the key, at i, starts a placed field `key: blanks "v"`. */
  lemma {:induction false} ExtractStringAt(s: string, from: nat, key: string, i: nat, f: string, blanks: string, v: string,
                                           maxLen: nat)
    requires maxLen >= 1 && ':' !in key && '"' !in v
    requires forall j | 0 <= j < |blanks| :: IsBlank(blanks[j])
    requires Find(s, key, from) == Some(i)
    requires f == Field(key, blanks, v) && PlacedAt(s, i, f)
    ensures ExtractString(s, from, key, maxLen) == Some(Truncate(v, maxLen))
  {
    FieldPlaced(s, i, f, key, blanks, v);
    ExtractPieces(s, from, key, i, blanks, v, maxLen);
  }

  /** ExtractStringAt on the placed pieces of the field. */
  lemma {:induction false} ExtractPieces(s: string, from: nat, key: string, i: nat, blanks: string, v: string, maxLen: nat)
    requires maxLen >= 1 && ':' !in key && '"' !in v
    requires forall j | 0 <= j < |blanks| :: IsBlank(blanks[j])
    requires Find(s, key, from) == Some(i)
    requires var c := i + |key|;
             var q := c + 1 + |blanks|;
             q + |v| + 1 < |s| && PlacedAt(s, i, key) && s[c] == ':' && PlacedAt(s, c + 1, blanks) && s[q] == '"'
             && PlacedAt(s, q + 1, v) && s[q + 1 + |v|] == '"'
    ensures ExtractString(s, from, key, maxLen) == Some(Truncate(v, maxLen))
  {
    var q := i + |key| + 1 + |blanks|;
    FieldValueStart(s, from, key, i, blanks);
    FieldCloses(s, q, v);
    QuotedValue(s, from, key, q, q + 1 + |v|, maxLen);
  }

  /** The value after a key placed at i, a ':' and placed blanks starts where the blanks end. */
  lemma {:induction false} FieldValueStart(s: string, from: nat, key: string, i: nat, blanks: string)
    requires ':' !in key && forall j | 0 <= j < |blanks| :: IsBlank(blanks[j])
    requires Find(s, key, from) == Some(i)
    requires i + |key| + 1 + |blanks| < |s| && PlacedAt(s, i, key) && s[i + |key|] == ':'
    requires PlacedAt(s, i + |key| + 1, blanks) && s[i + |key| + 1 + |blanks|] == '"'
    ensures ValueStart(s, from, key) == Some(i + |key| + 1 + |blanks|)
  {
    var c := i + |key|;
    ColonAfterKey(s, i, key);
    BlanksUpTo(s, c + 1, blanks);
    ValueStartAt(s, from, key, i, c, c + 1 + |blanks|);
  }

  /** A quote at q, a placed quote-free v and a quote after it close the value right after v. */
  lemma {:induction false} FieldCloses(s: string, q: nat, v: string)
    requires '"' !in v && q + 1 + |v| < |s| && PlacedAt(s, q + 1, v) && s[q + 1 + |v|] == '"'
    ensures FindChar(s, '"', q + 1) == Some(q + 1 + |v|) && s[q + 1..q + 1 + |v|] == v
  {
    var e := q + 1 + |v|;
    forall t | q + 1 <= t < e ensures s[t] != '"' { assert s[q + 1 + (t - q - 1)] == v[t - q - 1]; }
    assert s[q + 1..e] == v;
  }

  /** The first ':' from a colon-free key placed at i is the one right after it. */
  lemma {:induction false} ColonAfterKey(s: string, i: nat, key: string)
    requires ':' !in key && PlacedAt(s, i, key) && i + |key| < |s| && s[i + |key|] == ':'
    ensures FindChar(s, ':', i) == Some(i + |key|)
  {
    forall t | i <= t < i + |key| ensures s[t] != ':' { assert s[i + (t - i)] == key[t - i]; }
  }

  /** ValueStart from the key's first occurrence i, the colon c after it and the blanks after that. */
  lemma {:induction false} ValueStartAt(s: string, from: nat, key: string, i: nat, c: nat, q: nat)
    requires Find(s, key, from) == Some(i) && FindChar(s, ':', i) == Some(c) && SkipBlanks(s, c + 1) == q
    ensures ValueStart(s, from, key) == Some(q)
  {
  }

  /** ExtractString from a value that starts with '"' at q and closes at e. */
  lemma {:induction false} QuotedValue(s: string, from: nat, key: string, q: nat, e: nat, maxLen: nat)
    requires maxLen >= 1
    requires ValueStart(s, from, key) == Some(q) && q < |s| && s[q] == '"' && FindChar(s, '"', q + 1) == Some(e)
    ensures ExtractString(s, from, key, maxLen) == Some(Truncate(s[q + 1..e], maxLen))
  {
  }

  /** SkipBlanks passes over a run of blanks that ends in a '"'. */
  lemma {:induction false} BlanksUpTo(s: string, p: nat, blanks: string)
    requires PlacedAt(s, p, blanks) && p + |blanks| < |s| && s[p + |blanks|] == '"'
    requires forall i | 0 <= i < |blanks| :: IsBlank(blanks[i])
    ensures SkipBlanks(s, p) == p + |blanks|
    decreases |blanks|
  {
    if |blanks| > 0 {
      assert s[p + 0] == blanks[0];
      forall j | 0 <= j < |blanks[1..]| ensures s[p + 1 + j] == blanks[1..][j] { assert s[p + (1 + j)] == blanks[1 + j]; }
      BlanksUpTo(s, p + 1, blanks[1..]);
    }
  }

  /** A value that does not start with a quote is not a string: `"latitude": 39.1` gives no text. */
  lemma {:induction false} UnquotedIsNoString(s: string, from: nat, key: string, maxLen: nat)
    requires maxLen >= 1
    requires ValueStart(s, from, key).Some? && At(s, ValueStart(s, from, key).value) != '"'
    ensures ExtractString(s, from, key, maxLen) == None
  {
  }

  // ---------------------------------------------------------------------------
  // State abbreviations
  // ---------------------------------------------------------------------------

  /**
   The table of the fifty states and the District of Columbia, in the order of the
   source, kept in four pieces so that each stays small.
   */
  const STATES: seq<(string, string)> := STATES_A_I + STATES_I_M + STATES_M_O + STATES_O_W

  const STATES_A_I: seq<(string, string)> := [
    ("Alabama", "AL"), ("Alaska", "AK"), ("Arizona", "AZ"), ("Arkansas", "AR"),
    ("California", "CA"), ("Colorado", "CO"), ("Connecticut", "CT"), ("Delaware", "DE"),
    ("Florida", "FL"), ("Georgia", "GA"), ("Hawaii", "HI"), ("Idaho", "ID")]

  const STATES_I_M: seq<(string, string)> := [
    ("Illinois", "IL"), ("Indiana", "IN"), ("Iowa", "IA"), ("Kansas", "KS"),
    ("Kentucky", "KY"), ("Louisiana", "LA"), ("Maine", "ME"), ("Maryland", "MD"),
    ("Massachusetts", "MA"), ("Michigan", "MI"), ("Minnesota", "MN"), ("Mississippi", "MS")]

  const STATES_M_O: seq<(string, string)> := [
    ("Missouri", "MO"), ("Montana", "MT"), ("Nebraska", "NE"), ("Nevada", "NV"),
    ("New Hampshire", "NH"), ("New Jersey", "NJ"), ("New Mexico", "NM"), ("New York", "NY"),
    ("North Carolina", "NC"), ("North Dakota", "ND"), ("Ohio", "OH"), ("Oklahoma", "OK")]

  const STATES_O_W: seq<(string, string)> := [
    ("Oregon", "OR"), ("Pennsylvania", "PA"), ("Rhode Island", "RI"), ("South Carolina", "SC"),
    ("South Dakota", "SD"), ("Tennessee", "TN"), ("Texas", "TX"), ("Utah", "UT"),
    ("Vermont", "VT"), ("Virginia", "VA"), ("Washington", "WA"), ("West Virginia", "WV"),
    ("Wisconsin", "WI"), ("Wyoming", "WY"), ("District of Columbia", "DC")]

  /** A table entry: a capitalised name and two capitals, the first being the name's initial. */
  predicate PostalShape(e: (string, string)) {
    |e.0| > 0 && IsUpper(e.0[0]) && |e.1| == 2 && IsUpper(e.1[1]) && e.1[0] == e.0[0]
  }

  /** Every entry of the table has the postal shape. */
  lemma {:induction false} TableShape(k: int)
    requires 0 <= k < |STATES|
    ensures PostalShape(STATES[k])
  {
    var n1, n2, n3 := |STATES_A_I|, |STATES_A_I| + |STATES_I_M|, |STATES_A_I| + |STATES_I_M| + |STATES_M_O|;
    if k < n1 { ChunkShape(STATES_A_I, k); }
    else if k < n2 { ChunkShape(STATES_I_M, k - n1); }
    else if k < n3 { ChunkShape(STATES_M_O, k - n2); }
    else { ChunkShape(STATES_O_W, k - n3); }
  }

  /** TableShape for one piece of the table. */
  lemma {:induction false} ChunkShape(chunk: seq<(string, string)>, k: int)
    requires chunk == STATES_A_I || chunk == STATES_I_M || chunk == STATES_M_O || chunk == STATES_O_W
    requires 0 <= k < |chunk|
    ensures PostalShape(chunk[k])
  {
    if chunk == STATES_A_I { AtoIShape(k); }
    else if chunk == STATES_I_M { ItoMShape(k); }
    else if chunk == STATES_M_O { MtoOShape(k); }
    else { OtoWShape(k); }
  }

  lemma {:induction false} AtoIShape(k: int)
    requires 0 <= k < |STATES_A_I|
    ensures PostalShape(STATES_A_I[k])
  {
    if k < 6 {} else {}
  }

  lemma {:induction false} ItoMShape(k: int)
    requires 0 <= k < |STATES_I_M|
    ensures PostalShape(STATES_I_M[k])
  {
    if k < 6 {} else {}
  }

  lemma {:induction false} MtoOShape(k: int)
    requires 0 <= k < |STATES_M_O|
    ensures PostalShape(STATES_M_O[k])
  {
    if k < 6 {} else {}
  }

  lemma {:induction false} OtoWShape(k: int)
    requires 0 <= k < |STATES_O_W|
    ensures PostalShape(STATES_O_W[k])
  {
    if k < 8 {} else {}
  }

  /** The index of the first entry at or after i whose name is exactly `name` (the `strcmp` scan). */
  function IndexOf(table: seq<(string, string)>, name: string, i: nat): (r: Option<nat>)
    ensures r.Some? ==> i <= r.value < |table| && table[r.value].0 == name
    ensures r.Some? ==> forall k | i <= k < r.value :: table[k].0 != name
    ensures r.None? ==> forall k | i <= k < |table| :: table[k].0 != name
    decreases |table| - i
  {
    if i >= |table| then None
    else if table[i].0 == name then Some(i)
    else IndexOf(table, name, i + 1)
  }

  /**
   The abbreviation of a state name, from the first entry that names it exactly,
   or None when the name is not in the table.
   */
  function StateAbbrev(state: string): (r: Option<string>)
    ensures r.Some? <==> exists k | 0 <= k < |STATES| :: STATES[k].0 == state
    ensures r.Some? ==> exists k | 0 <= k < |STATES| :: STATES[k] == (state, r.value)
    ensures r.Some? ==> |r.value| == 2 && |state| > 0 && r.value[0] == state[0] && IsUpper(r.value[1])
  {
    var k := IndexOf(STATES, state, 0);
    if k.None? then None
    else
      TableShape(k.value);
      assert STATES[k.value] == (state, STATES[k.value].1);
      Some(STATES[k.value].1)
  }

  /** A name from the table is abbreviated as in the table; the match is exact. */
  lemma {:induction false} StateAbbrevExamples()
    ensures StateAbbrev("Alabama") == Some("AL")
    ensures StateAbbrev("alabama").None?
  {
    assert STATES[0] == ("Alabama", "AL");
    forall k | 0 <= k < |STATES| ensures STATES[k].0 != "alabama" {
      TableShape(k);
    }
  }

  // ---------------------------------------------------------------------------
  // ParseResponse and LookupZipcode
  // ---------------------------------------------------------------------------

  /** The fields ParseResponse reads from the result object starting at `from`. */
  function ReadFields(json: string, from: nat, strtof: string -> real): (g: GeoLocation)
    ensures |g.city| < CITY_SIZE && |g.state| < STATE_SIZE && |g.country| < COUNTRY_SIZE
    ensures g.stateAbbrev != [] ==> g.state != [] && StateAbbrev(g.state) == Some(g.stateAbbrev)
    ensures g.valid <==> g.city != [] && g.latitude != 0.0 && g.longitude != 0.0
  {
    var city := ExtractString(json, from, "\"name\"", CITY_SIZE).GetOr("");
    var country := ExtractString(json, from, "\"country_code\"", COUNTRY_SIZE).GetOr("");
    var state := ExtractString(json, from, "\"admin1\"", STATE_SIZE).GetOr("");
    var abbrev := if state == [] then "" else StateAbbrev(state).GetOr("");
    var latitude := ExtractFloat(json, from, "\"latitude\"", strtof).GetOr(0.0);
    var longitude := ExtractFloat(json, from, "\"longitude\"", strtof).GetOr(0.0);
    var valid := city != [] && latitude != 0.0 && longitude != 0.0;
    GeoLocation(city, state, abbrev, country, latitude, longitude, valid)
  }

  /**
   ParseResponse: the fields read from the first '{' after "results", and whether
   the location is valid. Fields that are missing stay empty or zero; a state
   outside the table keeps an empty abbreviation (every abbreviation is two
   characters, so the 8-byte buffer never cuts one).
   */
  function ParseResponse(json: string, strtof: string -> real): (r: (bool, GeoLocation))
    ensures r.0 == r.1.valid
    ensures r.0 ==> Contains(json, "\"results\"") && r.1.city != [] && r.1.latitude != 0.0 && r.1.longitude != 0.0
    ensures |r.1.city| < CITY_SIZE && |r.1.state| < STATE_SIZE && |r.1.country| < COUNTRY_SIZE
    ensures r.1.stateAbbrev != [] ==> StateAbbrev(r.1.state) == Some(r.1.stateAbbrev)
  {
    var results := Find(json, "\"results\"", 0);
    if results.None? then (false, EMPTY)
    else
      var start := FindChar(json, '{', results.value);
      if start.None? then (false, EMPTY)
      else
        FindContains(json, "\"results\"");
        var g := ReadFields(json, start.value, strtof);
        (g.valid, g)
  }

  /** A found result object is valid exactly when it has a city and two non-zero coordinates. */
  lemma {:induction false} ValidWhenComplete(json: string, i: nat, strtof: string -> real)
    requires Find(json, "\"results\"", 0) == Some(i) && FindChar(json, '{', i).Some?
    ensures var r := ParseResponse(json, strtof);
            r.0 <==> r.1.city != [] && r.1.latitude != 0.0 && r.1.longitude != 0.0
  {
  }

  /** The request path for a zipcode: the zipcode as search name, one English JSON result. */
  function SearchPath(zipcode: string): (p: string)
    ensures |p| == 16 + |zipcode| + 32
    ensures p[..16] == "/v1/search?name=" && p[16..16 + |zipcode|] == zipcode
  {
    var p := "/v1/search?name=" + zipcode + "&count=1&language=en&format=json";
    assert p[16..16 + |zipcode|] == zipcode;
    p
  }

  /**
   LookupZipcode, given the body the HTTPS GET of SearchPath(zipcode) on GEO_HOST
   returned, or None when it failed: a failed request leaves the cleared location,
   and a body is parsed as the C string it is, up to its first NUL.
   */
  function LookupZipcode(zipcode: string, fetched: Option<string>, strtof: string -> real): (r: (bool, GeoLocation))
    ensures fetched.None? ==> r == (false, EMPTY)
    ensures fetched.Some? ==> r == ParseResponse(CStr(fetched.value), strtof)
    ensures fetched.Some? && 0 as char !in fetched.value ==> r == ParseResponse(fetched.value, strtof)
    ensures r.0 ==> fetched.Some? && Contains(CStr(fetched.value), "\"results\"")
  {
    if fetched.None? then (false, EMPTY)
    else
      ParseResponse(CStr(fetched.value), strtof)
  }

  /** What a body holds after a NUL never reaches the parser. */
  lemma {:induction false} LookupIgnoresAfterNul(zipcode: string, body: string, tail: string, strtof: string -> real)
    ensures LookupZipcode(zipcode, Some(body + [0 as char] + tail), strtof) == LookupZipcode(zipcode, Some(body), strtof)
  {
    CStrStopsAtNul(body, tail);
  }

  /** A body that starts with a NUL is an empty C string and gives no location, whatever follows. */
  lemma {:induction false} LeadingNulNoLocation(zipcode: string, tail: string, strtof: string -> real)
    ensures LookupZipcode(zipcode, Some([0 as char] + tail), strtof) == (false, EMPTY)
  {
    CStrStopsAtNul([], tail);
    assert [] + [0 as char] + tail == [0 as char] + tail;
    NoResultsNoLocation([], strtof);
  }

  /** A response without a "results" key, such as an error object, never gives a location. */
  lemma {:induction false} NoResultsNoLocation(json: string, strtof: string -> real)
    requires !Contains(json, "\"results\"")
    ensures ParseResponse(json, strtof) == (false, EMPTY)
  {
    NotContainedNotFound(json, "\"results\"", 0);
  }

  /**
   The first result's quoted name becomes the city: when the first '{' after the
   first "results" opens an object whose first field is `"name": "v"` (v
   quote-free), the city is v, cut to 47 characters.
   */
  lemma {:induction false} FirstResultNamesCity(json: string, i: nat, start: nat, f: string, blanks: string, v: string,
                                                 strtof: string -> real)
    requires Find(json, "\"results\"", 0) == Some(i) && FindChar(json, '{', i) == Some(start)
    requires '"' !in v && forall j | 0 <= j < |blanks| :: IsBlank(blanks[j])
    requires f == Field("\"name\"", blanks, v) && PlacedAt(json, start + 1, f)
    ensures ParseResponse(json, strtof).1.city == Truncate(v, CITY_SIZE)
  {
    KeyAfter(json, "\"name\"", start, f, blanks, v);
    ExtractStringAt(json, start, "\"name\"", start + 1, f, blanks, v, CITY_SIZE);
    CityOfResult(json, i, start, Truncate(v, CITY_SIZE), strtof);
  }

  /** A key right after a character that does not start it is found there. */
  lemma {:induction false} KeyAfter(s: string, key: string, from: nat, f: string, blanks: string, v: string)
    requires 0 < |key| && from < |s| && s[from] != key[0]
    requires f == Field(key, blanks, v) && PlacedAt(s, from + 1, f)
    ensures Find(s, key, from) == Some(from + 1)
  {
    FieldPlaced(s, from + 1, f, key, blanks, v);
    assert s[from..from + |key|][0] == s[from];
    assert s[from + 1..from + 1 + |key|] == key;
  }

  /** The city of a response is the name read from the first object after its first "results". */
  lemma {:induction false} CityOfResult(json: string, i: nat, start: nat, city: string, strtof: string -> real)
    requires Find(json, "\"results\"", 0) == Some(i) && FindChar(json, '{', i) == Some(start)
    requires ExtractString(json, start, "\"name\"", CITY_SIZE) == Some(city)
    ensures ParseResponse(json, strtof).1.city == city
  {
  }
}
