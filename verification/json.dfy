/**
 The firmware's JSON value type and its recursive-descent parser and
 serialiser, the firmware's subset of RFC 8259: a `\u` escape is read as
 '?'. Objects are ordered maps from key to value, as a
 `std::map` keeps them: an association list sorted by key. A number keeps its
 source text; the double it denotes is not modelled.
 */
module Json {
  import opened Wrappers
  import opened Text

  datatype Json =
    | JNull
    | JBool(b: bool)
    | JNumber(lexeme: string)
    | JString(str: string)
    | JArray(items: seq<Json>)
    | JObject(members: seq<(string, Json)>)

  // ---------------------------------------------------------------------------
  // Object keys: ordered, distinct
  // ---------------------------------------------------------------------------

  /** `std::string` ordering: lexicographic on character codes. */
  predicate StrLess(a: string, b: string) {
    if |a| == 0 then |b| > 0
    else if |b| == 0 then false
    else if a[0] != b[0] then a[0] < b[0]
    else StrLess(a[1..], b[1..])
  }

  lemma {:induction false} StrLessIrreflexive(a: string)
    ensures !StrLess(a, a)
    decreases |a|
  {
    if |a| > 0 {
      StrLessIrreflexive(a[1..]);
    }
  }

  lemma {:induction false} StrLessTransitive(a: string, b: string, c: string)
    requires StrLess(a, b) && StrLess(b, c)
    ensures StrLess(a, c)
    decreases |a|
  {
    if |a| > 0 && |b| > 0 && |c| > 0 && a[0] == b[0] && b[0] == c[0] {
      StrLessTransitive(a[1..], b[1..], c[1..]);
    }
  }

  lemma {:induction false} StrLessTotal(a: string, b: string)
    ensures a == b || StrLess(a, b) || StrLess(b, a)
    decreases |a|
  {
    if |a| > 0 && |b| > 0 && a[0] == b[0] {
      StrLessTotal(a[1..], b[1..]);
      if a[1..] == b[1..] {
        assert a == [a[0]] + a[1..] && b == [b[0]] + b[1..];
      }
    }
  }

  predicate KeysSorted(m: seq<(string, Json)>) {
    forall i, j :: 0 <= i < j < |m| ==> StrLess(m[i].0, m[j].0)
  }

  function Keys(m: seq<(string, Json)>): seq<string> {
    seq(|m|, i requires 0 <= i < |m| => m[i].0)
  }

  /** Every key of m is above b. */
  predicate AllAbove(m: seq<(string, Json)>, b: string) {
    forall i :: 0 <= i < |m| ==> StrLess(b, m[i].0)
  }

  /** `obj[key] = value` on a sorted map: replace the value of an existing key, otherwise insert in order. */
  function Insert(m: seq<(string, Json)>, key: string, v: Json): (r: seq<(string, Json)>)
    requires KeysSorted(m)
    ensures KeysSorted(r)
    ensures (key, v) in r
    ensures |r| == |m| || |r| == |m| + 1
    ensures forall b :: AllAbove(m, b) && StrLess(b, key) ==> AllAbove(r, b)
  {
    if |m| == 0 then [(key, v)]
    else if m[0].0 == key then [(key, v)] + m[1..]
    else if StrLess(key, m[0].0) then
      assert forall j :: 0 < j < |m| ==> StrLess(key, m[j].0) by {
        forall j | 0 < j < |m| ensures StrLess(key, m[j].0) {
          StrLessTransitive(key, m[0].0, m[j].0);
        }
      }
      [(key, v)] + m
    else
      StrLessTotal(key, m[0].0);
      assert AllAbove(m[1..], m[0].0);
      var rest := Insert(m[1..], key, v);
      [m[0]] + rest
  }

  /** Insert keeps every entry under another key, and adds nothing but the entry for key. */
  lemma {:induction false} InsertEntries(m: seq<(string, Json)>, key: string, v: Json)
    requires KeysSorted(m)
    ensures forall i :: 0 <= i < |Insert(m, key, v)| ==> Insert(m, key, v)[i].0 == key || Insert(m, key, v)[i] in m
    ensures forall j :: 0 <= j < |m| && m[j].0 != key ==> m[j] in Insert(m, key, v)
    decreases |m|
  {
    if |m| > 0 && m[0].0 != key && !StrLess(key, m[0].0) {
      InsertEntries(m[1..], key, v);
      assert m == [m[0]] + m[1..];
    }
  }

  /** The value stored under key, if any (`find`). */
  function Lookup(m: seq<(string, Json)>, key: string): (r: Option<Json>)
    ensures r.Some? ==> (key, r.value) in m
    ensures r.None? ==> forall i :: 0 <= i < |m| ==> m[i].0 != key
  {
    if |m| == 0 then None
    else if m[0].0 == key then Some(m[0].1)
    else Lookup(m[1..], key)
  }

  /** After `obj[key] = v`, key maps to v and every other key keeps its value: a duplicate key keeps the last value. */
  lemma {:induction false} InsertLookup(m: seq<(string, Json)>, key: string, v: Json, other: string)
    requires KeysSorted(m)
    ensures Lookup(Insert(m, key, v), key) == Some(v)
    ensures other != key ==> Lookup(Insert(m, key, v), other) == Lookup(m, other)
    decreases |m|
  {
    if |m| > 0 && m[0].0 != key && !StrLess(key, m[0].0) {
      InsertLookup(m[1..], key, v, other);
    }
  }

  /** A key above the first entry's key is inserted into the tail. */
  lemma {:induction false} InsertPastHead(m: seq<(string, Json)>, key: string, v: Json)
    requires KeysSorted(m) && |m| > 0 && StrLess(m[0].0, key)
    ensures KeysSorted(m[1..])
    ensures Insert(m, key, v) == [m[0]] + Insert(m[1..], key, v)
  {
    StrLessIrreflexive(key);
    if StrLess(key, m[0].0) {
      StrLessTransitive(key, m[0].0, key);
    }
  }

  /** Inserting a key larger than every present key appends it. */
  lemma {:induction false} InsertAtEnd(m: seq<(string, Json)>, key: string, v: Json)
    requires KeysSorted(m)
    requires forall i :: 0 <= i < |m| ==> StrLess(m[i].0, key)
    ensures Insert(m, key, v) == m + [(key, v)]
    decreases |m|
  {
    if |m| > 0 {
      InsertPastHead(m, key, v);
      var tail := m[1..];
      forall i | 0 <= i < |tail|
        ensures StrLess(tail[i].0, key)
      {
        assert tail[i] == m[i + 1];
      }
      InsertAtEnd(tail, key, v);
      assert m + [(key, v)] == [m[0]] + (tail + [(key, v)]);
    }
  }

  // ---------------------------------------------------------------------------
  // Accessors (`JsonValue::Is*`, `As*`, `HasKey`, `operator[]`, `Size`)
  // ---------------------------------------------------------------------------

  predicate IsNull(v: Json) { v.JNull? }
  predicate IsBool(v: Json) { v.JBool? }
  predicate IsNumber(v: Json) { v.JNumber? }
  predicate IsString(v: Json) { v.JString? }
  predicate IsArray(v: Json) { v.JArray? }
  predicate IsObject(v: Json) { v.JObject? }

  /** Every value has exactly one kind. */
  lemma {:induction false} ExactlyOneKind(v: Json)
    ensures (if IsNull(v) then 1 else 0) + (if IsBool(v) then 1 else 0) + (if IsNumber(v) then 1 else 0)
          + (if IsString(v) then 1 else 0) + (if IsArray(v) then 1 else 0) + (if IsObject(v) then 1 else 0) == 1
  {
  }

  function AsBool(v: Json, default: bool): (r: bool)
    ensures v.JBool? ==> r == v.b
    ensures !v.JBool? ==> r == default
  {
    if v.JBool? then v.b else default
  }

  /** The number's source text, or the default on a kind mismatch. */
  function AsNumber(v: Json, default: string): (r: string)
    ensures v.JNumber? ==> r == v.lexeme
    ensures !v.JNumber? ==> r == default
  {
    if v.JNumber? then v.lexeme else default
  }

  /** AsString: the string, else the default (an empty default is the shared empty string). */
  function AsString(v: Json, default: string): (r: string)
    ensures v.JString? ==> r == v.str
    ensures !v.JString? ==> r == default
  {
    if v.JString? then v.str else if default == [] then [] else default
  }

  function AsArray(v: Json): (r: seq<Json>)
    ensures v.JArray? ==> r == v.items
    ensures !v.JArray? ==> r == []
  {
    if v.JArray? then v.items else []
  }

  function AsObject(v: Json): (r: seq<(string, Json)>)
    ensures v.JObject? ==> r == v.members
    ensures !v.JObject? ==> r == []
  {
    if v.JObject? then v.members else []
  }

  function HasKey(v: Json, key: string): (r: bool)
    ensures r <==> v.JObject? && exists i :: 0 <= i < |v.members| && v.members[i].0 == key
  {
    v.JObject? && Lookup(v.members, key).Some?
  }

  /** `operator[](key)`: the member's value, or null for a missing key or a non-object. */
  function Member(v: Json, key: string): (r: Json)
    ensures !v.JObject? ==> r == JNull
    ensures v.JObject? && HasKey(v, key) ==> (key, r) in v.members
    ensures !HasKey(v, key) ==> r == JNull
  {
    if v.JObject? then Lookup(v.members, key).GetOr(JNull) else JNull
  }

  /** `operator[](index)`: the element, or null when out of range or not an array. */
  function Element(v: Json, index: nat): (r: Json)
    ensures v.JArray? && index < |v.items| ==> r == v.items[index]
    ensures !(v.JArray? && index < |v.items|) ==> r == JNull
  {
    if v.JArray? && index < |v.items| then v.items[index] else JNull
  }

  function Size(v: Json): (r: nat)
    ensures v.JArray? ==> r == |v.items|
    ensures v.JObject? ==> r == |v.members|
    ensures !v.JArray? && !v.JObject? ==> r == 0
  {
    match v
    case JArray(items) => |items|
    case JObject(members) => |members|
    case _ => 0
  }

  // ---------------------------------------------------------------------------
  // Parser
  // ---------------------------------------------------------------------------

  datatype JsonError =
    | UnexpectedEnd
    | InvalidValue
    | ExpectedKey
    | ExpectedColon
    | UnexpectedEndOfObject
    | ExpectedCommaOrBrace
    | UnexpectedEndOfArray
    | ExpectedCommaOrBracket
    | UnexpectedEndOfEscape
    | InvalidUnicodeEscape
    | InvalidEscape
    | UnterminatedString
    | InvalidNumber
    | InvalidExponent

  /** The text each exception carries (`e.what()`). */
  function Message(e: JsonError): (m: string)
    ensures |m| > 0
  {
    match e
    case UnexpectedEnd => "Unexpected end of JSON"
    case InvalidValue => "Invalid JSON value"
    case ExpectedKey => "Expected string key in object"
    case ExpectedColon => "Expected ':' after object key"
    case UnexpectedEndOfObject => "Unexpected end of object"
    case ExpectedCommaOrBrace => "Expected ',' or '}' in object"
    case UnexpectedEndOfArray => "Unexpected end of array"
    case ExpectedCommaOrBracket => "Expected ',' or ']' in array"
    case UnexpectedEndOfEscape => "Unexpected end of string escape"
    case InvalidUnicodeEscape => "Invalid unicode escape"
    case InvalidEscape => "Invalid escape sequence"
    case UnterminatedString => "Unterminated string"
    case InvalidNumber => "Invalid number"
    case InvalidExponent => "Invalid number exponent"
  }

  const TrailingMessage: string := "Unexpected characters after JSON value"

  /** JSON white space: exactly space, tab, line feed and carriage return. */
  predicate IsWs(c: char) {
    c == ' ' || c == '\t' || c == '\n' || c == '\r'
  }

  function SkipWs(s: string, pos: nat): (p: nat)
    requires pos <= |s|
    ensures pos <= p <= |s|
    ensures forall i :: pos <= i < p ==> IsWs(s[i])
    ensures p < |s| ==> !IsWs(s[p])
    decreases |s| - pos
  {
    if pos < |s| && IsWs(s[pos]) then SkipWs(s, pos + 1) else pos
  }

  const Backspace: char := 8 as char
  const FormFeed: char := 12 as char

  /** The character a short escape `\c` stands for; None for `u` and for invalid escapes. */
  function ShortEscape(c: char): Option<char> {
    if c == '"' then Some('"')
    else if c == '\\' then Some('\\')
    else if c == '/' then Some('/')
    else if c == 'b' then Some(Backspace)
    else if c == 'f' then Some(FormFeed)
    else if c == 'n' then Some('\n')
    else if c == 'r' then Some('\r')
    else if c == 't' then Some('\t')
    else None
  }

  /**
   One character of a string body at pos: the closing quote (None), or the
   character it decodes to and where the next one starts.
   */
  function StringStep(s: string, pos: nat): (r: Result<(Option<char>, nat), JsonError>)
    requires pos <= |s|
    ensures r.Success? ==> pos < r.value.1 <= |s|
    ensures r.Success? && r.value.0.None? ==> s[pos] == '"' && r.value.1 == pos + 1
    ensures r.Failure? ==> r.error.UnexpectedEndOfEscape? || r.error.InvalidUnicodeEscape? || r.error.InvalidEscape? || r.error.UnterminatedString?
  {
    if pos >= |s| then Failure(UnterminatedString)
    else
      var c := s[pos];
      if c == '"' then Success((None, pos + 1))
      else if c == '\\' then
        if pos + 1 >= |s| then Failure(UnexpectedEndOfEscape)
        else
          var e := s[pos + 1];
          if e == 'u' then
            if pos + 2 + 4 > |s| then Failure(InvalidUnicodeEscape)
            else Success((Some('?'), pos + 6))
          else match ShortEscape(e)
            case Some(d) => Success((Some(d), pos + 2))
            case None => Failure(InvalidEscape)
      else Success((Some(c), pos + 1))
  }

  /** The body of ParseString after the opening quote: characters up to the closing quote, escapes decoded. */
  function ParseStringBody(s: string, pos: nat, acc: string): (r: Result<(string, nat), JsonError>)
    requires pos <= |s|
    ensures r.Success? ==> pos < r.value.1 <= |s| && s[r.value.1 - 1] == '"'
    decreases |s| - pos
  {
    match StringStep(s, pos)
    case Failure(e) => Failure(e)
    case Success((None, next)) => Success((acc, next))
    case Success((Some(c), next)) => ParseStringBody(s, next, acc + [c])
  }

  function ParseString(s: string, pos: nat): (r: Result<(string, nat), JsonError>)
    requires pos < |s| && s[pos] == '"'
    ensures r.Success? ==> pos + 1 < r.value.1 <= |s|
  {
    ParseStringBody(s, pos + 1, [])
  }

  function DigitsEnd(s: string, pos: nat): (p: nat)
    requires pos <= |s|
    ensures pos <= p <= |s|
    ensures forall i :: pos <= i < p ==> IsDigit(s[i])
    ensures p < |s| ==> !IsDigit(s[p])
    decreases |s| - pos
  {
    if pos < |s| && IsDigit(s[pos]) then DigitsEnd(s, pos + 1) else pos
  }

  /** The integer part: a single `0`, or a non-zero digit followed by digits. */
  function ScanInt(s: string, p: nat): (r: Option<nat>)
    requires p <= |s|
    ensures r.Some? ==> p < r.value <= |s| && AllDigits(s[p..r.value])
    ensures r.None? <==> p == |s| || !IsDigit(s[p])
  {
    if p < |s| && s[p] == '0' then Some(p + 1)
    else if p < |s| && '1' <= s[p] <= '9' then Some(DigitsEnd(s, p))
    else None
  }

  /** The optional fraction: a `.` must be followed by at least one digit. */
  function ScanFrac(s: string, p: nat): (r: Result<nat, JsonError>)
    requires p <= |s|
    ensures r.Success? ==> p <= r.value <= |s|
    ensures r.Failure? ==> r.error == InvalidNumber && p < |s| && s[p] == '.'
  {
    if p < |s| && s[p] == '.' then
      if p + 1 >= |s| || !IsDigit(s[p + 1]) then Failure(InvalidNumber)
      else Success(DigitsEnd(s, p + 1))
    else Success(p)
  }

  /** The optional exponent: `e` or `E`, an optional sign, then at least one digit. */
  function ScanExp(s: string, p: nat): (r: Result<nat, JsonError>)
    requires p <= |s|
    ensures r.Success? ==> p <= r.value <= |s|
    ensures r.Failure? ==> r.error == InvalidExponent && p < |s| && (s[p] == 'e' || s[p] == 'E')
  {
    if p < |s| && (s[p] == 'e' || s[p] == 'E') then
      var q := if p + 1 < |s| && (s[p + 1] == '+' || s[p + 1] == '-') then p + 2 else p + 1;
      if q >= |s| || !IsDigit(s[q]) then Failure(InvalidExponent)
      else Success(DigitsEnd(s, q))
    else Success(p)
  }

  /** ParseNumber: optional `-`, integer part, fraction, exponent; the value is the scanned text. */
  function ParseNumber(s: string, pos: nat): (r: Result<(string, nat), JsonError>)
    requires pos < |s|
    ensures r.Success? ==> pos < r.value.1 <= |s| && r.value.0 == s[pos..r.value.1]
    ensures r.Failure? ==> r.error == InvalidNumber || r.error == InvalidExponent
  {
    var p0 := if s[pos] == '-' then pos + 1 else pos;
    match ScanInt(s, p0)
    case None => Failure(InvalidNumber)
    case Some(p1) =>
      match ScanFrac(s, p1)
      case Failure(e) => Failure(e)
      case Success(p2) =>
        match ScanExp(s, p2)
        case Failure(e) => Failure(e)
        case Success(p3) => Success((s[pos..p3], p3))
  }

  /** ParseValue: skip white space, then dispatch on the first character. */
  function ParseValue(s: string, pos: nat): (r: Result<(Json, nat), JsonError>)
    requires pos <= |s|
    ensures r.Success? ==> pos < r.value.1 <= |s|
    decreases |s| - pos, 3
  {
    var p := SkipWs(s, pos);
    if p >= |s| then Failure(UnexpectedEnd) else ParseValueAt(s, p)
  }

  /** The value starting at the non-blank character at pos. */
  function ParseValueAt(s: string, pos: nat): (r: Result<(Json, nat), JsonError>)
    requires pos < |s|
    ensures r.Success? ==> pos < r.value.1 <= |s|
    decreases |s| - pos, 2
  {
    var c := s[pos];
    if c == '{' then ParseObject(s, pos)
    else if c == '[' then ParseArray(s, pos)
    else if c == '"' then
      match ParseString(s, pos)
      case Failure(e) => Failure(e)
      case Success((str, p')) => Success((JString(str), p'))
    else if c == '-' || IsDigit(c) then
      match ParseNumber(s, pos)
      case Failure(e) => Failure(e)
      case Success((lex, p')) => Success((JNumber(lex), p'))
    else if HasAt(s, pos, "true") then Success((JBool(true), pos + 4))
    else if HasAt(s, pos, "false") then Success((JBool(false), pos + 5))
    else if HasAt(s, pos, "null") then Success((JNull, pos + 4))
    else Failure(InvalidValue)
  }

  function ParseObject(s: string, pos: nat): (r: Result<(Json, nat), JsonError>)
    requires pos < |s| && s[pos] == '{'
    ensures r.Success? ==> pos < r.value.1 <= |s| && r.value.0.JObject? && KeysSorted(r.value.0.members)
    decreases |s| - pos, 1
  {
    var p := SkipWs(s, pos + 1);
    if p < |s| && s[p] == '}' then Success((JObject([]), p + 1))
    else ParseMembers(s, p, [])
  }

  /** One member inside an object: white space, the quoted key, white space, `:`, then the value. */
  function ParseMember(s: string, pos: nat): (r: Result<(string, Json, nat), JsonError>)
    requires pos <= |s|
    ensures r.Success? ==> pos < r.value.2 <= |s|
    decreases |s| - pos, 0
  {
    var p := SkipWs(s, pos);
    if p >= |s| || s[p] != '"' then Failure(ExpectedKey)
    else
      match ParseString(s, p)
      case Failure(e) => Failure(e)
      case Success((key, p1)) =>
        var p2 := SkipWs(s, p1);
        if p2 >= |s| || s[p2] != ':' then Failure(ExpectedColon)
        else
          match ParseValue(s, p2 + 1)
          case Failure(e) => Failure(e)
          case Success((v, p3)) => Success((key, v, p3))
  }

  /** One pass of ParseObject's loop per member: the member, stored with `obj[key] = value`, then `,` or `}`. */
  function ParseMembers(s: string, pos: nat, obj: seq<(string, Json)>): (r: Result<(Json, nat), JsonError>)
    requires pos <= |s| && KeysSorted(obj)
    ensures r.Success? ==> pos < r.value.1 <= |s| && r.value.0.JObject? && KeysSorted(r.value.0.members)
    decreases |s| - pos, 1
  {
    match ParseMember(s, pos)
    case Failure(e) => Failure(e)
    case Success((key, v, p3)) => AfterMember(s, p3, Insert(obj, key, v))
  }

  /** The rest of one pass of ParseObject's loop, once the member is stored: `,` or `}`. */
  function AfterMember(s: string, p: nat, obj: seq<(string, Json)>): (r: Result<(Json, nat), JsonError>)
    requires p <= |s| && KeysSorted(obj)
    ensures r.Success? ==> p < r.value.1 <= |s| && r.value.0.JObject? && KeysSorted(r.value.0.members)
    decreases |s| - p, 1
  {
    var p4 := SkipWs(s, p);
    if p4 >= |s| then Failure(UnexpectedEndOfObject)
    else if s[p4] == '}' then Success((JObject(obj), p4 + 1))
    else if s[p4] == ',' then ParseMembers(s, p4 + 1, obj)
    else Failure(ExpectedCommaOrBrace)
  }

  function ParseArray(s: string, pos: nat): (r: Result<(Json, nat), JsonError>)
    requires pos < |s| && s[pos] == '['
    ensures r.Success? ==> pos < r.value.1 <= |s| && r.value.0.JArray?
    decreases |s| - pos, 1
  {
    var p := SkipWs(s, pos + 1);
    if p < |s| && s[p] == ']' then Success((JArray([]), p + 1))
    else ParseElements(s, p, [])
  }

  /** One pass of ParseArray's loop per element: value, then ',' or ']'. */
  function ParseElements(s: string, pos: nat, arr: seq<Json>): (r: Result<(Json, nat), JsonError>)
    requires pos <= |s|
    ensures r.Success? ==> pos < r.value.1 <= |s| && r.value.0.JArray?
    decreases |s| - pos, 4
  {
    match ParseValue(s, pos)
    case Failure(e) => Failure(e)
    case Success((v, p1)) =>
      var arr' := arr + [v];
      var p2 := SkipWs(s, p1);
      if p2 >= |s| then Failure(UnexpectedEndOfArray)
      else if s[p2] == ']' then Success((JArray(arr'), p2 + 1))
      else if s[p2] == ',' then ParseElements(s, p2 + 1, arr')
      else Failure(ExpectedCommaOrBracket)
  }

  /** `Json::Parse(json, error)`: the value and an empty error, or null and the error text. */
  function Parse(s: string): (r: (Json, string))
    ensures r.1 != [] ==> r.0 == JNull
    ensures r.1 == [] <==> exists v, p :: ParseValue(s, SkipWs(s, 0)) == Success((v, p)) && SkipWs(s, p) == |s|
  {
    match ParseValue(s, SkipWs(s, 0))
    case Failure(e) => (JNull, Message(e))
    case Success((v, p)) =>
      if SkipWs(s, p) != |s| then (JNull, TrailingMessage) else (v, [])
  }

  // ---------------------------------------------------------------------------
  // Serialiser
  // ---------------------------------------------------------------------------

  function EscapeChar(c: char): (r: string)
    ensures |r| >= 1
  {
    if c == '"' then "\\\""
    else if c == '\\' then "\\\\"
    else if c == Backspace then "\\b"
    else if c == FormFeed then "\\f"
    else if c == '\n' then "\\n"
    else if c == '\r' then "\\r"
    else if c == '\t' then "\\t"
    else [c]
  }

  function EscapeString(s: string): string {
    if s == [] then [] else EscapeChar(s[0]) + EscapeString(s[1..])
  }

  function StringifyItems(items: seq<Json>): string
    decreases items
  {
    if |items| == 0 then []
    else if |items| == 1 then Stringify(items[0])
    else Stringify(items[0]) + "," + StringifyItems(items[1..])
  }

  function StringifyMembers(members: seq<(string, Json)>): string
    decreases members
  {
    if |members| == 0 then []
    else
      assert members[0] in members && members[0].1 < members[0];
      var m := "\"" + members[0].0 + "\":" + Stringify(members[0].1);
      if |members| == 1 then m else m + "," + StringifyMembers(members[1..])
  }

  /** `Json::Stringify`: compact output; strings escaped; object keys written unescaped. */
  function Stringify(v: Json): string
    decreases v
  {
    match v
    case JNull => "null"
    case JBool(b) => if b then "true" else "false"
    case JNumber(lex) => lex
    case JString(str) => "\"" + EscapeString(str) + "\""
    case JArray(items) => "[" + StringifyItems(items) + "]"
    case JObject(members) => "{" + StringifyMembers(members) + "}"
  }
}
