/**
 Properties of the JSON parser and serialiser: the number grammar of
 section 6 of RFC 8259 is exactly what ParseNumber accepts, parsing inverts
 Stringify on well-formed values, and the documented error cases.
 */
module JsonLemmas {
  import opened Wrappers
  import opened Text
  import opened Json

  // ---------------------------------------------------------------------------
  // Text positions
  // ---------------------------------------------------------------------------

  lemma {:induction false} HasAtIndex(s: string, p: nat, t: string, k: nat)
    requires HasAt(s, p, t) && k < |t|
    ensures s[p + k] == t[k]
  {
    assert s[p..p + |t|][k] == s[p + k];
  }

  lemma {:induction false} HasAtConcat(s: string, p: nat, a: string, b: string)
    requires HasAt(s, p, a + b)
    ensures HasAt(s, p, a) && HasAt(s, p + |a|, b)
  {
    assert s[p..p + |a|] == s[p..p + |a + b|][..|a|];
    assert (a + b)[..|a|] == a;
    assert s[p + |a|..p + |a| + |b|] == s[p..p + |a + b|][|a|..];
    assert (a + b)[|a|..] == b;
  }

  lemma {:induction false} SliceOfSlice(s: string, a: nat, b: nat, x: nat, y: nat)
    requires a <= b <= |s| && x <= y <= b - a
    ensures s[a..b][x..y] == s[a + x..a + y]
  {
    assert forall k :: 0 <= k < y - x ==> s[a..b][x..y][k] == s[a + x + k];
  }

  lemma {:induction false} HasAtSlice(s: string, p: nat, t: string, x: nat, y: nat)
    requires HasAt(s, p, t) && x <= y <= |t|
    ensures HasAt(s, p + x, t[x..y])
  {
    SliceOfSlice(s, p, p + |t|, x, y);
  }

  /**
   `t` occurs in `s` at `pos`, stated character by character. It is HasAt in
   recursive form: a proof sees only as much of it as it unfolds.
   */
  predicate WrittenAt(s: string, pos: nat, t: string)
    decreases |t|
  {
    pos + |t| <= |s| && (|t| == 0 || (s[pos] == t[0] && WrittenAt(s, pos + 1, t[1..])))
  }

  lemma {:induction false} WrittenAtIff(s: string, pos: nat, t: string)
    ensures WrittenAt(s, pos, t) <==> HasAt(s, pos, t)
    decreases |t|
  {
    if |t| > 0 && pos + |t| <= |s| {
      WrittenAtIff(s, pos + 1, t[1..]);
      assert s[pos..pos + |t|] == [s[pos]] + s[pos + 1..pos + |t|];
      assert t == [t[0]] + t[1..];
    }
  }

  lemma {:induction false} WrittenAtConcat(s: string, p: nat, a: string, b: string)
    requires WrittenAt(s, p, a + b)
    ensures WrittenAt(s, p, a) && WrittenAt(s, p + |a|, b)
  {
    WrittenAtIff(s, p, a + b);
    HasAtConcat(s, p, a, b);
    WrittenAtIff(s, p, a);
    WrittenAtIff(s, p + |a|, b);
  }

  lemma {:induction false} WrittenAtIndex(s: string, p: nat, t: string, k: nat)
    requires WrittenAt(s, p, t) && k < |t|
    ensures s[p + k] == t[k]
  {
    WrittenAtIff(s, p, t);
    HasAtIndex(s, p, t, k);
  }

  lemma {:induction false} DigitsEndAt(s: string, p: nat, q: nat)
    requires p <= q <= |s|
    requires forall i :: p <= i < q ==> IsDigit(s[i])
    requires q == |s| || !IsDigit(s[q])
    ensures DigitsEnd(s, p) == q
    decreases q - p
  {
    if p < q {
      DigitsEndAt(s, p + 1, q);
    }
  }

  // ---------------------------------------------------------------------------
  // Numbers: the grammar of section 6 of RFC 8259, over positions of a text
  // ---------------------------------------------------------------------------

  predicate DigitsIn(t: string, i: nat, j: nat)
    requires i <= j <= |t|
  {
    forall x :: i <= x < j ==> IsDigit(t[x])
  }

  /** int = zero / ( digit1-9 *DIGIT ), spanning t[i..j] */
  predicate IntAt(t: string, i: nat, j: nat)
    requires i <= j <= |t|
  {
    i < j && (if t[i] == '0' then j == i + 1 else '1' <= t[i] <= '9' && DigitsIn(t, i, j))
  }

  /** [ frac ], frac = decimal-point 1*DIGIT, spanning t[i..j] */
  predicate FracAt(t: string, i: nat, j: nat)
    requires i <= j <= |t|
  {
    i == j || (i + 1 < j && t[i] == '.' && DigitsIn(t, i + 1, j))
  }

  /** [ exp ], exp = e [ minus / plus ] 1*DIGIT, spanning t[i..j] */
  predicate ExpAt(t: string, i: nat, j: nat)
    requires i <= j <= |t|
  {
    i == j || (i + 1 < j && (t[i] == 'e' || t[i] == 'E') &&
      var d := if t[i + 1] == '+' || t[i + 1] == '-' then i + 2 else i + 1;
      d < j && DigitsIn(t, d, j))
  }

  /** number = [ minus ] int [ frac ] [ exp ] */
  predicate NumberGrammar(lex: string) {
    exists i, j, k :: 0 <= i <= j <= k <= |lex| && (i == 0 || (i == 1 && lex[0] == '-'))
      && IntAt(lex, i, j) && FracAt(lex, j, k) && ExpAt(lex, k, |lex|)
  }

  /** The character after a number that cannot extend it. */
  predicate NumberStop(s: string, q: nat)
    requires q <= |s|
  {
    q == |s| || !(IsDigit(s[q]) || s[q] == '.' || s[q] == 'e' || s[q] == 'E')
  }

  /** The grammar's parts hold of a text exactly where they hold of the same characters inside a larger one. */
  lemma {:induction false} PartsShift(s: string, pos: nat, t: string, i: nat, j: nat)
    requires HasAt(s, pos, t) && i <= j <= |t|
    ensures IntAt(t, i, j) <==> IntAt(s, pos + i, pos + j)
    ensures FracAt(t, i, j) <==> FracAt(s, pos + i, pos + j)
    ensures ExpAt(t, i, j) <==> ExpAt(s, pos + i, pos + j)
  {
    forall x | i <= x < j ensures s[pos + x] == t[x] {
      HasAtIndex(s, pos, t, x);
    }
    assert forall x :: i <= x <= j ==> (DigitsIn(t, x, j) <==> DigitsIn(s, pos + x, pos + j)) by {
      forall x | i <= x <= j ensures DigitsIn(t, x, j) <==> DigitsIn(s, pos + x, pos + j) {
        if DigitsIn(s, pos + x, pos + j) {
          forall y | x <= y < j ensures IsDigit(t[y]) {
            assert s[pos + y] == t[y];
          }
        }
      }
    }
  }

  lemma {:induction false} ScanIntSound(s: string, p: nat)
    requires p <= |s| && ScanInt(s, p).Some?
    ensures IntAt(s, p, ScanInt(s, p).value)
  {
  }

  lemma {:induction false} ScanFracSound(s: string, p: nat)
    requires p <= |s| && ScanFrac(s, p).Success?
    ensures FracAt(s, p, ScanFrac(s, p).value)
  {
  }

  lemma {:induction false} ScanExpSound(s: string, p: nat)
    requires p <= |s| && ScanExp(s, p).Success?
    ensures ExpAt(s, p, ScanExp(s, p).value)
  {
  }

  /** A number laid out in s from pos to e is a number of the grammar. */
  lemma {:induction false} GrammarOfLayout(s: string, pos: nat, a: nat, b: nat, c: nat, e: nat)
    requires pos <= a <= b <= c <= e <= |s| && (a == pos || (a == pos + 1 && s[pos] == '-'))
    requires IntAt(s, a, b) && FracAt(s, b, c) && ExpAt(s, c, e)
    ensures NumberGrammar(s[pos..e])
  {
    var lex := s[pos..e];
    PartsShift(s, pos, lex, a - pos, b - pos);
    PartsShift(s, pos, lex, b - pos, c - pos);
    PartsShift(s, pos, lex, c - pos, e - pos);
    if a > pos {
      assert lex[0] == s[pos];
    }
    assert IntAt(lex, a - pos, b - pos) && FracAt(lex, b - pos, c - pos) && ExpAt(lex, c - pos, |lex|);
  }

  /** Every text ParseNumber accepts is a number of the RFC 8259 grammar. */
  lemma {:induction false} ParseNumberSound(s: string, pos: nat)
    requires pos < |s| && ParseNumber(s, pos).Success?
    ensures NumberGrammar(ParseNumber(s, pos).value.0)
  {
    var p0 := if s[pos] == '-' then pos + 1 else pos;
    var p1 := ScanInt(s, p0).value;
    var p2 := ScanFrac(s, p1).value;
    var p3 := ScanExp(s, p2).value;
    ScanIntSound(s, p0);
    ScanFracSound(s, p1);
    ScanExpSound(s, p2);
    GrammarOfLayout(s, pos, p0, p1, p2, p3);
  }

  lemma {:induction false} ScanIntOf(s: string, p: nat, q: nat)
    requires p <= q <= |s| && IntAt(s, p, q)
    requires q == |s| || !IsDigit(s[q])
    ensures ScanInt(s, p) == Some(q)
  {
    if s[p] != '0' {
      DigitsEndAt(s, p, q);
    }
  }

  lemma {:induction false} ScanFracOf(s: string, p: nat, q: nat)
    requires p <= q <= |s| && FracAt(s, p, q)
    requires q == |s| || !IsDigit(s[q])
    requires p == q ==> p == |s| || s[p] != '.'
    ensures ScanFrac(s, p) == Success(q)
  {
    if p < q {
      DigitsEndAt(s, p + 1, q);
    }
  }

  lemma {:induction false} ScanExpOf(s: string, p: nat, q: nat)
    requires p <= q <= |s| && ExpAt(s, p, q)
    requires q == |s| || !IsDigit(s[q])
    requires p == q ==> p == |s| || (s[p] != 'e' && s[p] != 'E')
    ensures ScanExp(s, p) == Success(q)
  {
    if p < q {
      var d := if s[p + 1] == '+' || s[p + 1] == '-' then p + 2 else p + 1;
      DigitsEndAt(s, d, q);
    }
  }

  /** Where the integer part, fraction and exponent of a number laid out at pos lie in s. */
  /** The split points of a number lexeme, with the character found at each one. */
  lemma {:induction false} NumberParts(lex: string) returns (i: nat, j: nat, k: nat)
    requires NumberGrammar(lex)
    ensures 0 <= i <= j <= k <= |lex| && (i == 0 || (i == 1 && lex[0] == '-'))
    ensures IntAt(lex, i, j) && FracAt(lex, j, k) && ExpAt(lex, k, |lex|)
    ensures j < k ==> lex[j] == '.'
    ensures k < |lex| ==> lex[k] == 'e' || lex[k] == 'E'
  {
    i, j, k :| 0 <= i <= j <= k <= |lex| && (i == 0 || (i == 1 && lex[0] == '-'))
      && IntAt(lex, i, j) && FracAt(lex, j, k) && ExpAt(lex, k, |lex|);
  }

  lemma {:induction false} NumberLayout(s: string, pos: nat, lex: string) returns (a: nat, b: nat, c: nat)
    requires NumberGrammar(lex) && HasAt(s, pos, lex) && NumberStop(s, pos + |lex|)
    ensures pos <= a <= b <= c <= pos + |lex| <= |s| && pos < |s|
    ensures (if s[pos] == '-' then pos + 1 else pos) == a
    ensures IntAt(s, a, b) && FracAt(s, b, c) && ExpAt(s, c, pos + |lex|)
    ensures b == |s| || !IsDigit(s[b])
    ensures c == |s| || !IsDigit(s[c])
    ensures b == c ==> b == |s| || s[b] != '.'
    ensures c == pos + |lex| ==> c == |s| || (s[c] != 'e' && s[c] != 'E')
  {
    var i, j, k := NumberParts(lex);
    a, b, c := pos + i, pos + j, pos + k;
    var e := pos + |lex|;
    PartsShift(s, pos, lex, i, j);
    assert IntAt(s, a, b);
    PartsShift(s, pos, lex, j, k);
    assert FracAt(s, b, c);
    PartsShift(s, pos, lex, k, |lex|);
    assert ExpAt(s, c, e);
    HasAtIndex(s, pos, lex, 0);
    if j < |lex| {
      HasAtIndex(s, pos, lex, j);
    }
    if k < |lex| {
      HasAtIndex(s, pos, lex, k);
    }
  }

  /** ParseNumber reads the three parts of a number laid out from pos. */
  lemma {:induction false} ParseNumberParts(s: string, pos: nat, a: nat, b: nat, c: nat, e: nat)
    requires pos <= a <= b <= c <= e <= |s| && pos < |s|
    requires (if s[pos] == '-' then pos + 1 else pos) == a
    requires IntAt(s, a, b) && FracAt(s, b, c) && ExpAt(s, c, e)
    requires b == |s| || !IsDigit(s[b])
    requires c == |s| || !IsDigit(s[c])
    requires e == |s| || !IsDigit(s[e])
    requires b == c ==> b == |s| || s[b] != '.'
    requires c == e ==> c == |s| || (s[c] != 'e' && s[c] != 'E')
    ensures ParseNumber(s, pos) == Success((s[pos..e], e))
  {
    ScanIntOf(s, a, b);
    ScanFracOf(s, b, c);
    ScanExpOf(s, c, e);
    ParseNumberSteps(s, pos, b, c, e);
  }

  /** Every number of the RFC 8259 grammar is read back whole, when what follows cannot extend it. */
  lemma {:induction false} ParseNumberComplete(s: string, pos: nat, lex: string)
    requires NumberGrammar(lex) && HasAt(s, pos, lex) && NumberStop(s, pos + |lex|)
    ensures pos < |s| && ParseNumber(s, pos) == Success((lex, pos + |lex|))
  {
    var a, b, c := NumberLayout(s, pos, lex);
    ParseNumberParts(s, pos, a, b, c, pos + |lex|);
  }

  lemma {:induction false} ParseNumberSteps(s: string, pos: nat, p1: nat, p2: nat, p3: nat)
    requires pos < |s| && p3 <= |s|
    requires ScanInt(s, if s[pos] == '-' then pos + 1 else pos) == Some(p1)
    requires ScanFrac(s, p1) == Success(p2) && ScanExp(s, p2) == Success(p3)
    ensures ParseNumber(s, pos) == Success((s[pos..p3], p3))
  {
  }

  lemma {:induction false} NumberGrammarStart(lex: string)
    requires NumberGrammar(lex)
    ensures |lex| > 0 && (lex[0] == '-' || IsDigit(lex[0]))
  {
  }

  /** A leading zero is not part of a number: `01` reads as `0` followed by stray text. */
  lemma {:induction false} LeadingZeroRejected()
    ensures Parse("01") == (JNull, "Unexpected characters after JSON value")
  {
    assert ScanInt("01", 0) == Some(1);
    assert ScanFrac("01", 1) == Success(1);
    assert ScanExp("01", 1) == Success(1);
    assert "01"[0..1] == "0";
  }

  /** A leading `+` is not a number. */
  lemma {:induction false} PlusSignRejected()
    ensures Parse("+1") == (JNull, "Invalid JSON value")
  {
    assert !HasAt("+1", 0, "true");
  }

  // ---------------------------------------------------------------------------
  // Strings
  // ---------------------------------------------------------------------------

  /** Each escaped character reads back as itself. */
  lemma {:induction false} EscapeCharDecodes(c: char)
    ensures |EscapeChar(c)| == 1 ==> EscapeChar(c) == [c] && c != '"' && c != '\\'
    ensures |EscapeChar(c)| != 1 ==>
      |EscapeChar(c)| == 2 && EscapeChar(c)[0] == '\\' && EscapeChar(c)[1] != 'u' && ShortEscape(EscapeChar(c)[1]) == Some(c)
  {
  }

  /** ParseStringBody consumes one escaped character at a time. */
  lemma {:induction false} ParseEscapedChar(s: string, p: nat, c: char)
    requires WrittenAt(s, p, EscapeChar(c))
    ensures StringStep(s, p) == Success((Some(c), p + |EscapeChar(c)|))
  {
    var e := EscapeChar(c);
    EscapeCharDecodes(c);
    WrittenAtIndex(s, p, e, 0);
    if |e| == 2 {
      WrittenAtIndex(s, p, e, 1);
    }
  }

  lemma {:induction false} EscapedStringSplit(s: string, p: nat, str: string)
    requires str != [] && WrittenAt(s, p, EscapeString(str) + "\"")
    ensures WrittenAt(s, p, EscapeChar(str[0]))
    ensures WrittenAt(s, p + |EscapeChar(str[0])|, EscapeString(str[1..]) + "\"")
  {
    assert EscapeString(str) + "\"" == EscapeChar(str[0]) + (EscapeString(str[1..]) + "\"");
    WrittenAtConcat(s, p, EscapeChar(str[0]), EscapeString(str[1..]) + "\"");
  }

  lemma {:induction false} ParseEscapedEmpty(s: string, p: nat, acc: string)
    requires WrittenAt(s, p, EscapeString([]) + "\"")
    ensures ReadsAs(ParseStringBody(s, p, acc), acc, p + 1)
  {
    assert EscapeString([]) + "\"" == "\"";
    WrittenAtIndex(s, p, "\"", 0);
  }

  /** One step of ParseEscapedString: the first character, then the rest as already read. */
  lemma {:induction false} ParseEscapedStep(s: string, p: nat, acc: string, str: string, q: nat)
    requires str != [] && WrittenAt(s, p, EscapeString(str) + "\"")
    requires p + |EscapeChar(str[0])| <= |s|
    requires ReadsAs(ParseStringBody(s, p + |EscapeChar(str[0])|, acc + [str[0]]), acc + [str[0]] + str[1..], q)
    ensures ReadsAs(ParseStringBody(s, p, acc), acc + str, q)
  {
    EscapedStringSplit(s, p, str);
    ParseEscapedChar(s, p, str[0]);
    assert acc + [str[0]] + str[1..] == acc + str;
  }

  /** The body of an escaped string, followed by its closing quote, reads back as the string. */
  lemma {:induction false} ParseEscapedString(s: string, p: nat, acc: string, str: string)
    requires WrittenAt(s, p, EscapeString(str) + "\"")
    ensures ReadsAs(ParseStringBody(s, p, acc), acc + str, p + |EscapeString(str)| + 1)
    decreases |str|, 1
  {
    if str == [] {
      ParseEscapedEmpty(s, p, acc);
      assert acc + str == acc;
    } else {
      ParseEscapedCons(s, p, acc, str);
    }
  }

  lemma {:induction false} ParseEscapedCons(s: string, p: nat, acc: string, str: string)
    requires str != [] && WrittenAt(s, p, EscapeString(str) + "\"")
    ensures ReadsAs(ParseStringBody(s, p, acc), acc + str, p + |EscapeString(str)| + 1)
    decreases |str|, 0
  {
    var e := EscapeChar(str[0]);
    EscapedStringSplit(s, p, str);
    ParseEscapedString(s, p + |e|, acc + [str[0]], str[1..]);
    ParseEscapedStep(s, p, acc, str, p + |e| + |EscapeString(str[1..])| + 1);
  }

  /** A key Stringify can write unescaped and read back: no quote and no backslash. */
  predicate PlainKey(k: string) {
    forall i :: 0 <= i < |k| ==> k[i] != '"' && k[i] != '\\'
  }

  /** An object key written raw reads back as itself when it holds no quote or backslash. */
  lemma {:induction false} ParseRawString(s: string, p: nat, acc: string, k: string)
    requires PlainKey(k) && WrittenAt(s, p, k + "\"")
    ensures ReadsAs(ParseStringBody(s, p, acc), acc + k, p + |k| + 1)
    decreases |k|
  {
    WrittenAtIndex(s, p, k + "\"", 0);
    if k == [] {
      assert acc + k == acc;
    } else {
      assert (k + "\"")[0] == k[0];
      assert k[0] != '"' && k[0] != '\\';
      assert PlainKey(k[1..]) by {
        assert forall i :: 0 <= i < |k[1..]| ==> k[1..][i] == k[i + 1];
      }
      assert k + "\"" == [k[0]] + (k[1..] + "\"");
      WrittenAtConcat(s, p, [k[0]], k[1..] + "\"");
      ParseRawString(s, p + 1, acc + [k[0]], k[1..]);
      assert acc + [k[0]] + k[1..] == acc + k;
    }
  }

  /** r is a successful read of v that ends just before position end. */
  predicate ReadsAs<T(==)>(r: Result<(T, nat), JsonError>, v: T, end: nat) {
    r.Success? && r.value.0 == v && r.value.1 == end
  }

  // ---------------------------------------------------------------------------
  // Parse inverts Stringify
  // ---------------------------------------------------------------------------

  /**
   The values Stringify writes in a form Parse reads back: numbers follow the
   grammar, object keys hold no quote or backslash (they are written raw), and
   objects are sorted by key as the parser's map keeps them.
   */
  predicate WellFormed(v: Json)
    decreases v, 1
  {
    match v
    case JNumber(lex) => NumberGrammar(lex)
    case JArray(items) => ItemsWellFormed(items)
    case JObject(members) => KeysSorted(members) && MembersWellFormed(members)
    case _ => true
  }

  predicate ItemsWellFormed(items: seq<Json>)
    decreases items, 0
  {
    |items| == 0 || (WellFormed(items[0]) && ItemsWellFormed(items[1..]))
  }

  predicate MembersWellFormed(members: seq<(string, Json)>)
    decreases members, 0
  {
    |members| == 0 ||
      (assert members[0] in members && members[0].1 < members[0];
       PlainKey(members[0].0) && WellFormed(members[0].1) && MembersWellFormed(members[1..]))
  }

  lemma {:induction false} MembersWellFormedHead(members: seq<(string, Json)>)
    requires |members| > 0 && MembersWellFormed(members)
    ensures PlainKey(members[0].0) && WellFormed(members[0].1) && MembersWellFormed(members[1..])
  {
  }

  /** Stringify's output starts with a character that is neither white space nor a closing bracket. */
  lemma {:induction false} StringifyFirst(v: Json)
    requires WellFormed(v)
    ensures |Stringify(v)| > 0
    ensures !IsWs(Stringify(v)[0]) && Stringify(v)[0] != ']' && Stringify(v)[0] != '}'
  {
    if v.JNumber? {
      NumberGrammarStart(v.lexeme);
    }
  }

  lemma {:induction false} ItemsFirst(items: seq<Json>)
    requires |items| > 0 && ItemsWellFormed(items)
    ensures |Stringify(items[0])| > 0 && |StringifyItems(items)| > 0 && StringifyItems(items)[0] == Stringify(items[0])[0]
    ensures !IsWs(StringifyItems(items)[0]) && StringifyItems(items)[0] != ']'
  {
    StringifyFirst(items[0]);
  }

  /** The first element of a written array body, and the character after it. */
  lemma {:induction false} ItemsLayoutHead(s: string, pos: nat, items: seq<Json>)
    requires |items| > 0 && WrittenAt(s, pos, StringifyItems(items) + "]")
    ensures WrittenAt(s, pos, Stringify(items[0]))
    ensures pos + |Stringify(items[0])| < |s|
    ensures s[pos + |Stringify(items[0])|] == (if |items| == 1 then ']' else ',')
  {
    var t := Stringify(items[0]);
    var tail := if |items| == 1 then "]" else "," + (StringifyItems(items[1..]) + "]");
    assert StringifyItems(items) + "]" == t + tail;
    WrittenAtConcat(s, pos, t, tail);
    WrittenAtIndex(s, pos + |t|, tail, 0);
  }

  /** The rest of a written array body after its first element and `,`. */
  lemma {:induction false} ItemsLayoutMore(s: string, pos: nat, items: seq<Json>)
    requires |items| > 1 && WrittenAt(s, pos, StringifyItems(items) + "]")
    ensures WrittenAt(s, pos + |Stringify(items[0])| + 1, StringifyItems(items[1..]) + "]")
    ensures |StringifyItems(items)| == |Stringify(items[0])| + 1 + |StringifyItems(items[1..])|
  {
    var t := Stringify(items[0]);
    assert StringifyItems(items) + "]" == (t + ",") + (StringifyItems(items[1..]) + "]");
    WrittenAtConcat(s, pos, t + ",", StringifyItems(items[1..]) + "]");
  }

  /** After an element and a `,`, ParseElements goes on with the next element. */
  lemma {:induction false} ParseElementsNext(s: string, pos: nat, arr: seq<Json>, v: Json, q: nat)
    requires pos <= |s| && ReadsAs(ParseValue(s, pos), v, q) && q < |s| && s[q] == ','
    ensures ParseElements(s, pos, arr) == ParseElements(s, q + 1, arr + [v])
  {
  }

  /** After an element and a `]`, ParseElements ends. */
  lemma {:induction false} ParseElementsLast(s: string, pos: nat, arr: seq<Json>, v: Json, q: nat)
    requires pos <= |s| && ReadsAs(ParseValue(s, pos), v, q) && q < |s| && s[q] == ']'
    ensures ReadsAs(ParseElements(s, pos, arr), JArray(arr + [v]), q + 1)
  {
  }

  /** An element and a `,` hand the rest of the body to ParseElements, whatever it then reads. */
  lemma {:induction false} ParseNextElementOf(s: string, pos: nat, arr: seq<Json>, v: Json, q: nat, w: Json, n: nat)
    requires pos <= |s| && ReadsAs(ParseValue(s, pos), v, q) && q < |s| && s[q] == ','
    requires ReadsAs(ParseElements(s, q + 1, arr + [v]), w, n)
    ensures ReadsAs(ParseElements(s, pos, arr), w, n)
  {
    ParseElementsNext(s, pos, arr, v, q);
  }

  /** In a body of two or more elements, the elements after the first `,` read back. */
  lemma {:induction false} ParseRestElementsOf(s: string, pos: nat, arr: seq<Json>, items: seq<Json>, q: nat)
    requires |items| > 1 && ItemsWellFormed(items) && WrittenAt(s, pos, StringifyItems(items) + "]")
    requires q == pos + |Stringify(items[0])|
    ensures q + 1 <= |s|
    ensures ReadsAs(ParseElements(s, q + 1, arr + [items[0]]), JArray(arr + items), pos + |StringifyItems(items)| + 1)
    decreases items, 1
  {
    ItemsLayoutMore(s, pos, items);
    ParseElementsOf(s, q + 1, arr + [items[0]], items[1..]);
    assert arr + [items[0]] + items[1..] == arr + items;
  }

  lemma {:induction false} ParseElementsOf(s: string, pos: nat, arr: seq<Json>, items: seq<Json>)
    requires |items| > 0 && ItemsWellFormed(items) && WrittenAt(s, pos, StringifyItems(items) + "]")
    ensures ReadsAs(ParseElements(s, pos, arr), JArray(arr + items), pos + |StringifyItems(items)| + 1)
    decreases items, 2
  {
    var q := pos + |Stringify(items[0])|;
    ItemsLayoutHead(s, pos, items);
    ParseValueOf(s, pos, items[0]);
    if |items| == 1 {
      ParseElementsLast(s, pos, arr, items[0], q);
      assert arr + [items[0]] == arr + items;
      assert StringifyItems(items) == Stringify(items[0]);
    } else {
      ParseRestElementsOf(s, pos, arr, items, q);
      ParseNextElementOf(s, pos, arr, items[0], q, JArray(arr + items), pos + |StringifyItems(items)| + 1);
    }
  }

  lemma {:induction false} ArrayLayout(s: string, pos: nat, items: seq<Json>)
    requires WrittenAt(s, pos, Stringify(JArray(items)))
    ensures pos + 1 < |s| && s[pos] == '['
    ensures WrittenAt(s, pos + 1, StringifyItems(items) + "]")
    ensures |Stringify(JArray(items))| == |StringifyItems(items)| + 2
  {
    var body := StringifyItems(items) + "]";
    assert Stringify(JArray(items)) == "[" + body;
    WrittenAtConcat(s, pos, "[", body);
    WrittenAtIndex(s, pos, "[", 0);
  }

  lemma {:induction false} ParseArrayStart(s: string, pos: nat)
    requires pos + 1 < |s| && s[pos] == '[' && !IsWs(s[pos + 1])
    ensures s[pos + 1] == ']' ==> ReadsAs(ParseArray(s, pos), JArray([]), pos + 2)
    ensures s[pos + 1] != ']' ==> ParseArray(s, pos) == ParseElements(s, pos + 1, [])
  {
  }

  lemma {:induction false} ParseArrayOf(s: string, pos: nat, items: seq<Json>)
    requires ItemsWellFormed(items) && WrittenAt(s, pos, Stringify(JArray(items)))
    ensures pos < |s| && s[pos] == '['
    ensures ReadsAs(ParseArray(s, pos), JArray(items), pos + |Stringify(JArray(items))|)
    decreases items, 3
  {
    ArrayLayout(s, pos, items);
    WrittenAtIndex(s, pos + 1, StringifyItems(items) + "]", 0);
    if |items| == 0 {
      ParseArrayStart(s, pos);
    } else {
      ItemsFirst(items);
      ParseArrayStart(s, pos);
      ParseElementsOf(s, pos + 1, [], items);
      assert [] + items == items;
    }
  }

  /** A key written raw with its quotes and the colon after it. */
  lemma {:induction false} ParseKeyOf(s: string, pos: nat, k: string)
    requires PlainKey(k) && WrittenAt(s, pos, "\"" + k + "\":")
    ensures pos < |s| && s[pos] == '"' && SkipWs(s, pos) == pos
    ensures ReadsAs(ParseString(s, pos), k, pos + |k| + 2)
    ensures pos + |k| + 2 < |s| && s[pos + |k| + 2] == ':' && SkipWs(s, pos + |k| + 2) == pos + |k| + 2
  {
    assert "\"" + k + "\":" == "\"" + ((k + "\"") + ":");
    WrittenAtConcat(s, pos, "\"", (k + "\"") + ":");
    WrittenAtConcat(s, pos + 1, k + "\"", ":");
    WrittenAtIndex(s, pos, "\"", 0);
    WrittenAtIndex(s, pos + |k| + 2, ":", 0);
    ParseRawString(s, pos + 1, [], k);
    assert [] + k == k;
  }

  /** The first member of a written object body, and the character after it. */
  lemma {:induction false} MembersLayoutHead(s: string, pos: nat, members: seq<(string, Json)>)
    requires |members| > 0 && WrittenAt(s, pos, StringifyMembers(members) + "}")
    ensures WrittenAt(s, pos, "\"" + members[0].0 + "\":")
    ensures WrittenAt(s, pos + |members[0].0| + 3, Stringify(members[0].1))
    ensures pos + |members[0].0| + 3 + |Stringify(members[0].1)| < |s|
    ensures s[pos + |members[0].0| + 3 + |Stringify(members[0].1)|] == (if |members| == 1 then '}' else ',')
  {
    var head := "\"" + members[0].0 + "\":";
    var t := Stringify(members[0].1);
    var tail := if |members| == 1 then "}" else "," + (StringifyMembers(members[1..]) + "}");
    assert StringifyMembers(members) + "}" == head + (t + tail);
    WrittenAtConcat(s, pos, head, t + tail);
    WrittenAtConcat(s, pos + |head|, t, tail);
    WrittenAtIndex(s, pos + |head| + |t|, tail, 0);
  }

  /** The rest of a written object body after its first member and `,`. */
  lemma {:induction false} MembersLayoutMore(s: string, pos: nat, members: seq<(string, Json)>)
    requires |members| > 1 && WrittenAt(s, pos, StringifyMembers(members) + "}")
    ensures var q := pos + |members[0].0| + 3 + |Stringify(members[0].1)|;
      WrittenAt(s, q + 1, StringifyMembers(members[1..]) + "}")
      && |StringifyMembers(members)| == q - pos + 1 + |StringifyMembers(members[1..])|
  {
    var first := "\"" + members[0].0 + "\":" + Stringify(members[0].1) + ",";
    assert StringifyMembers(members) + "}" == first + (StringifyMembers(members[1..]) + "}");
    WrittenAtConcat(s, pos, first, StringifyMembers(members[1..]) + "}");
  }

  /** A member written as key, colon and value reads back as that pair. */
  lemma {:induction false} ParseMemberOf(s: string, pos: nat, k: string, v: Json, q: nat)
    requires PlainKey(k) && WrittenAt(s, pos, "\"" + k + "\":")
    requires ReadsAs(ParseValue(s, pos + |k| + 3), v, q)
    ensures ParseMember(s, pos) == Success((k, v, q))
  {
    ParseKeyOf(s, pos, k);
  }

  /** After a member and a `,`, ParseMembers goes on with the next member. */
  lemma {:induction false} ParseMembersNext(s: string, pos: nat, obj: seq<(string, Json)>, k: string, v: Json, q: nat)
    requires pos <= |s| && KeysSorted(obj) && ParseMember(s, pos) == Success((k, v, q)) && q < |s| && s[q] == ','
    ensures ParseMembers(s, pos, obj) == ParseMembers(s, q + 1, Insert(obj, k, v))
  {
    assert ParseMembers(s, pos, obj) == AfterMember(s, q, Insert(obj, k, v));
    assert SkipWs(s, q) == q;
  }

  /** After a member and a `}`, ParseMembers ends. */
  lemma {:induction false} ParseMembersLast(s: string, pos: nat, obj: seq<(string, Json)>, k: string, v: Json, q: nat)
    requires pos <= |s| && KeysSorted(obj) && ParseMember(s, pos) == Success((k, v, q)) && q < |s| && s[q] == '}'
    ensures ReadsAs(ParseMembers(s, pos, obj), JObject(Insert(obj, k, v)), q + 1)
  {
    assert ParseMembers(s, pos, obj) == AfterMember(s, q, Insert(obj, k, v));
    assert SkipWs(s, q) == q;
  }

  /** Appending the next member of a sorted object to a sorted prefix of it. */
  lemma {:induction false} InsertNextMember(obj: seq<(string, Json)>, members: seq<(string, Json)>)
    requires |members| > 0 && KeysSorted(obj + members)
    ensures KeysSorted(obj)
    ensures Insert(obj, members[0].0, members[0].1) == obj + [members[0]]
    ensures obj + [members[0]] + members[1..] == obj + members
  {
    var all := obj + members;
    forall i, j | 0 <= i < j < |obj|
      ensures StrLess(obj[i].0, obj[j].0)
    {
      assert all[i] == obj[i] && all[j] == obj[j];
    }
    forall i | 0 <= i < |obj|
      ensures StrLess(obj[i].0, members[0].0)
    {
      assert all[i] == obj[i] && all[|obj|] == members[0];
    }
    InsertAtEnd(obj, members[0].0, members[0].1);
    assert obj + [members[0]] + members[1..] == obj + members;
  }

  /** The first member of a written object body reads back as that key and value. */
  lemma {:induction false} ParseFirstMemberOf(s: string, pos: nat, members: seq<(string, Json)>, q: nat)
    requires |members| > 0 && MembersWellFormed(members) && WrittenAt(s, pos, StringifyMembers(members) + "}")
    requires q == pos + |members[0].0| + 3 + |Stringify(members[0].1)|
    ensures q < |s| && s[q] == (if |members| == 1 then '}' else ',')
    ensures ParseMember(s, pos) == Success((members[0].0, members[0].1, q))
    decreases members, 0
  {
    var k, v := members[0].0, members[0].1;
    assert members[0] in members && v < members[0];
    MembersWellFormedHead(members);
    MembersLayoutHead(s, pos, members);
    assert NumberStop(s, q);
    ParseValueOf(s, pos + |k| + 3, v);
    ParseMemberOf(s, pos, k, v, q);
  }

  /** A one-member body: the member, then the closing brace. */
  lemma {:induction false} ParseLastMemberOf(s: string, pos: nat, obj: seq<(string, Json)>, members: seq<(string, Json)>, q: nat)
    requires |members| == 1 && KeysSorted(obj + members)
    requires q == pos + |members[0].0| + 3 + |Stringify(members[0].1)|
    requires pos <= |s| && q < |s| && s[q] == '}' && ParseMember(s, pos) == Success((members[0].0, members[0].1, q))
    ensures KeysSorted(obj)
    ensures ReadsAs(ParseMembers(s, pos, obj), JObject(obj + members), pos + |StringifyMembers(members)| + 1)
  {
    InsertNextMember(obj, members);
    ParseMembersLast(s, pos, obj, members[0].0, members[0].1, q);
    assert obj + [members[0]] == obj + members;
    assert StringifyMembers(members) == "\"" + members[0].0 + "\":" + Stringify(members[0].1);
  }

  /** A longer body: the member, `,`, then the rest as already read. */
  lemma {:induction false} ParseNextMemberOf(s: string, pos: nat, obj: seq<(string, Json)>, k: string, v: Json, q: nat,
                                             w: Json, n: nat)
    requires pos <= |s| && KeysSorted(obj) && q < |s| && s[q] == ',' && ParseMember(s, pos) == Success((k, v, q))
    requires ReadsAs(ParseMembers(s, q + 1, Insert(obj, k, v)), w, n)
    ensures ReadsAs(ParseMembers(s, pos, obj), w, n)
  {
    ParseMembersNext(s, pos, obj, k, v, q);
  }

  /** In a body of two or more members, the members after the first `,` read back. */
  lemma {:induction false} ParseRestMembersOf(s: string, pos: nat, obj: seq<(string, Json)>, members: seq<(string, Json)>, q: nat)
    requires |members| > 1 && KeysSorted(obj + members) && MembersWellFormed(members)
    requires WrittenAt(s, pos, StringifyMembers(members) + "}")
    requires q == pos + |members[0].0| + 3 + |Stringify(members[0].1)|
    ensures KeysSorted(obj + [members[0]]) && q + 1 <= |s|
    ensures ReadsAs(ParseMembers(s, q + 1, obj + [members[0]]), JObject(obj + members), pos + |StringifyMembers(members)| + 1)
    decreases members, 1
  {
    MembersWellFormedHead(members);
    MembersLayoutMore(s, pos, members);
    InsertNextMember(obj, members);
    assert KeysSorted(obj + [members[0]] + members[1..]);
    ParseMembersOf(s, q + 1, obj + [members[0]], members[1..]);
  }

  lemma {:induction false} ParseMembersOf(s: string, pos: nat, obj: seq<(string, Json)>, members: seq<(string, Json)>)
    requires |members| > 0 && KeysSorted(obj + members) && MembersWellFormed(members)
    requires WrittenAt(s, pos, StringifyMembers(members) + "}")
    ensures KeysSorted(obj)
    ensures ReadsAs(ParseMembers(s, pos, obj), JObject(obj + members), pos + |StringifyMembers(members)| + 1)
    decreases members, 2
  {
    var q := pos + |members[0].0| + 3 + |Stringify(members[0].1)|;
    ParseFirstMemberOf(s, pos, members, q);
    if |members| == 1 {
      ParseLastMemberOf(s, pos, obj, members, q);
    } else {
      ParseRestMembersOf(s, pos, obj, members, q);
      InsertNextMember(obj, members);
      ParseNextMemberOf(s, pos, obj, members[0].0, members[0].1, q,
                        JObject(obj + members), pos + |StringifyMembers(members)| + 1);
    }
  }

  lemma {:induction false} ObjectLayout(s: string, pos: nat, members: seq<(string, Json)>)
    requires WrittenAt(s, pos, Stringify(JObject(members)))
    ensures pos + 1 < |s| && s[pos] == '{'
    ensures WrittenAt(s, pos + 1, StringifyMembers(members) + "}")
    ensures |Stringify(JObject(members))| == |StringifyMembers(members)| + 2
    ensures s[pos + 1] == (if |members| == 0 then '}' else '"')
  {
    var body := StringifyMembers(members) + "}";
    assert Stringify(JObject(members)) == "{" + body;
    WrittenAtConcat(s, pos, "{", body);
    WrittenAtIndex(s, pos, "{", 0);
    WrittenAtIndex(s, pos + 1, body, 0);
  }

  lemma {:induction false} ParseObjectStart(s: string, pos: nat)
    requires pos + 1 < |s| && s[pos] == '{' && !IsWs(s[pos + 1])
    ensures s[pos + 1] == '}' ==> ReadsAs(ParseObject(s, pos), JObject([]), pos + 2)
    ensures s[pos + 1] != '}' ==> ParseObject(s, pos) == ParseMembers(s, pos + 1, [])
  {
  }

  lemma {:induction false} ParseObjectOf(s: string, pos: nat, members: seq<(string, Json)>)
    requires KeysSorted(members) && MembersWellFormed(members) && WrittenAt(s, pos, Stringify(JObject(members)))
    ensures pos < |s| && s[pos] == '{'
    ensures ReadsAs(ParseObject(s, pos), JObject(members), pos + |Stringify(JObject(members))|)
    decreases members, 3
  {
    ObjectLayout(s, pos, members);
    ParseObjectStart(s, pos);
    if |members| > 0 {
      ParseMembersOf(s, pos + 1, [], members);
      assert [] + members == members;
    }
  }

  lemma {:induction false} ParseLiteralOf(s: string, pos: nat, v: Json)
    requires (v.JNull? || v.JBool?) && WrittenAt(s, pos, Stringify(v))
    ensures ReadsAs(ParseValue(s, pos), v, pos + |Stringify(v)|)
  {
    WrittenAtIndex(s, pos, Stringify(v), 0);
    WrittenAtIff(s, pos, Stringify(v));
  }

  /** A value that starts with a quote is the string ParseString reads there. */
  lemma {:induction false} ParseValueString(s: string, pos: nat, str: string, q: nat)
    requires pos < |s| && s[pos] == '"' && ReadsAs(ParseString(s, pos), str, q)
    ensures ReadsAs(ParseValue(s, pos), JString(str), q)
  {
    assert SkipWs(s, pos) == pos;
  }

  /** A value that starts with `-` or a digit is the number ParseNumber reads there. */
  lemma {:induction false} ParseValueNumber(s: string, pos: nat, lex: string, q: nat)
    requires pos < |s| && (s[pos] == '-' || IsDigit(s[pos])) && ParseNumber(s, pos) == Success((lex, q))
    ensures ReadsAs(ParseValue(s, pos), JNumber(lex), q)
  {
    assert SkipWs(s, pos) == pos;
  }

  /** A string written by Stringify reads back through ParseString. */
  lemma {:induction false} ParseStringOf(s: string, pos: nat, str: string)
    requires WrittenAt(s, pos, Stringify(JString(str)))
    ensures pos < |s| && s[pos] == '"'
    ensures ReadsAs(ParseString(s, pos), str, pos + |Stringify(JString(str))|)
  {
    assert Stringify(JString(str)) == "\"" + (EscapeString(str) + "\"");
    WrittenAtConcat(s, pos, "\"", EscapeString(str) + "\"");
    WrittenAtIndex(s, pos, "\"", 0);
    ParseEscapedString(s, pos + 1, [], str);
    assert [] + str == str;
  }

  /** A value that starts with `[` is the array ParseArray reads there. */
  lemma {:induction false} ParseValueArray(s: string, pos: nat)
    requires pos < |s| && s[pos] == '['
    ensures ParseValue(s, pos) == ParseArray(s, pos)
  {
    assert SkipWs(s, pos) == pos;
  }

  /** A value that starts with `{` is the object ParseObject reads there. */
  lemma {:induction false} ParseValueObject(s: string, pos: nat)
    requires pos < |s| && s[pos] == '{'
    ensures ParseValue(s, pos) == ParseObject(s, pos)
  {
    assert SkipWs(s, pos) == pos;
  }

  lemma {:induction false} ParseStringValueOf(s: string, pos: nat, str: string)
    requires WrittenAt(s, pos, Stringify(JString(str)))
    ensures ReadsAs(ParseValue(s, pos), JString(str), pos + |Stringify(JString(str))|)
  {
    ParseStringOf(s, pos, str);
    ParseValueString(s, pos, str, pos + |Stringify(JString(str))|);
  }

  lemma {:induction false} ParseNumberValueOf(s: string, pos: nat, lex: string)
    requires NumberGrammar(lex) && WrittenAt(s, pos, lex) && NumberStop(s, pos + |lex|)
    ensures ReadsAs(ParseValue(s, pos), JNumber(lex), pos + |lex|)
  {
    NumberGrammarStart(lex);
    WrittenAtIndex(s, pos, lex, 0);
    WrittenAtIff(s, pos, lex);
    ParseNumberComplete(s, pos, lex);
    ParseValueNumber(s, pos, lex, pos + |lex|);
  }

  /** A well-formed value written by Stringify at pos reads back as itself, when nothing after it extends a number. */
  lemma {:induction false} ParseValueOf(s: string, pos: nat, v: Json)
    requires WellFormed(v) && WrittenAt(s, pos, Stringify(v)) && NumberStop(s, pos + |Stringify(v)|)
    ensures ReadsAs(ParseValue(s, pos), v, pos + |Stringify(v)|)
    decreases v, 2
  {
    match v
    case JNull => ParseLiteralOf(s, pos, v);
    case JBool(_) => ParseLiteralOf(s, pos, v);
    case JNumber(lex) => ParseNumberValueOf(s, pos, lex);
    case JString(str) => ParseStringValueOf(s, pos, str);
    case JArray(items) =>
      ParseArrayOf(s, pos, items);
      ParseValueArray(s, pos);
    case JObject(members) =>
      ParseObjectOf(s, pos, members);
      ParseValueObject(s, pos);
  }

  /** Parse inverts Stringify on every well-formed value. */
  lemma {:induction false} ParseStringify(v: Json)
    requires WellFormed(v)
    ensures Parse(Stringify(v)) == (v, [])
  {
    var s := Stringify(v);
    StringifyFirst(v);
    assert SkipWs(s, 0) == 0;
    assert HasAt(s, 0, s);
    WrittenAtIff(s, 0, s);
    ParseValueOf(s, 0, v);
  }

  // ---------------------------------------------------------------------------
  // Trailing commas
  // ---------------------------------------------------------------------------

  /** After a ',' in an array, a closing ']' (after any white space) is not a value: the array is rejected. */
  lemma {:induction false} TrailingCommaInArray(s: string, pos: nat, arr: seq<Json>)
    requires pos <= |s| && SkipWs(s, pos) < |s| && s[SkipWs(s, pos)] == ']'
    ensures ParseElements(s, pos, arr) == Failure(InvalidValue)
  {
    var p := SkipWs(s, pos);
    NotHasAt(s, p, "true");
    NotHasAt(s, p, "false");
    NotHasAt(s, p, "null");
    assert ParseValueAt(s, p) == Failure(InvalidValue);
    assert ParseValue(s, pos) == Failure(InvalidValue);
  }

  /** After a ',' in an object, a closing '}' (after any white space) is not a key: the object is rejected. */
  lemma {:induction false} TrailingCommaInObject(s: string, pos: nat, obj: seq<(string, Json)>)
    requires pos <= |s| && KeysSorted(obj) && SkipWs(s, pos) < |s| && s[SkipWs(s, pos)] == '}'
    ensures ParseMembers(s, pos, obj) == Failure(ExpectedKey)
  {
  }

  /** "[1,]" is rejected with the message of a missing value. */
  lemma {:induction false} TrailingCommaArrayText()
    ensures Parse("[1,]") == (JNull, "Invalid JSON value")
  {
    var s := "[1,]";
    assert SkipWs(s, 0) == 0 && SkipWs(s, 1) == 1 && SkipWs(s, 2) == 2 && SkipWs(s, 3) == 3;
    assert ScanInt(s, 1) == Some(2) && ScanFrac(s, 2) == Success(2) && ScanExp(s, 2) == Success(2);
    ParseNumberSteps(s, 1, 2, 2, 2);
    assert s[1..2] == "1";
    assert ParseValue(s, 1) == Success((JNumber("1"), 2));
    TrailingCommaInArray(s, 3, [JNumber("1")]);
    assert ParseElements(s, 1, []) == Failure(InvalidValue);
  }
}
