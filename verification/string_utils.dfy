/**
 The firmware's string helpers (the `StringUtils` namespace): trimming, case
 mapping, splitting and joining, prefix tests, replacement and URL form
 encoding. Strings are byte strings; case mapping is the C locale's.
 */
module StringUtils {
  import opened Wrappers
  import opened Text

  predicate IsTrimSpace(c: char) {
    c == ' ' || c == '\t' || c == '\n' || c == '\r'
  }

  predicate IsByteString(s: string) {
    forall i :: 0 <= i < |s| ==> s[i] as int < 256
  }

  // ---------------------------------------------------------------------------
  // Trim
  // ---------------------------------------------------------------------------

  /** Index of the first character that is not trim white space (`find_first_not_of`). */
  function FirstNonSpace(s: string): (i: nat)
    ensures i <= |s|
    ensures forall k :: 0 <= k < i ==> IsTrimSpace(s[k])
    ensures i < |s| ==> !IsTrimSpace(s[i])
  {
    if |s| == 0 || !IsTrimSpace(s[0]) then 0 else 1 + FirstNonSpace(s[1..])
  }

  /** One past the last character that is not trim white space (`find_last_not_of` + 1). */
  function EndNonSpace(s: string): (e: nat)
    ensures e <= |s|
    ensures forall k :: e <= k < |s| ==> IsTrimSpace(s[k])
    ensures e > 0 ==> !IsTrimSpace(s[e - 1])
  {
    if |s| == 0 || !IsTrimSpace(s[|s| - 1]) then |s| else EndNonSpace(s[..|s| - 1])
  }

  function Trim(s: string): string {
    var start := FirstNonSpace(s);
    if start == |s| then [] else s[start..EndNonSpace(s)]
  }

  /** Trim keeps the maximal middle part with no white space at either end. */
  lemma {:induction false} TrimSpec(s: string)
    ensures var t := Trim(s);
            exists a: nat, b: nat :: a <= b <= |s| && t == s[a..b]
              && (forall k :: 0 <= k < a ==> IsTrimSpace(s[k]))
              && (forall k :: b <= k < |s| ==> IsTrimSpace(s[k]))
              && (|t| > 0 ==> !IsTrimSpace(t[0]) && !IsTrimSpace(t[|t| - 1]))
    ensures (forall k :: 0 <= k < |s| ==> IsTrimSpace(s[k])) <==> Trim(s) == []
  {
    var a := FirstNonSpace(s);
    var e := EndNonSpace(s);
    if a == |s| {
      assert s[a..a] == [];
    } else {
      assert !IsTrimSpace(s[a]);
      assert a < e;
      assert Trim(s) == s[a..e];
    }
  }

  lemma {:induction false} TrimIdempotent(s: string)
    ensures Trim(Trim(s)) == Trim(s)
  {
    var t := Trim(s);
    TrimSpec(s);
    if |t| > 0 {
      assert FirstNonSpace(t) == 0;
      assert EndNonSpace(t) == |t|;
      assert t[0..|t|] == t;
    }
  }

  // ---------------------------------------------------------------------------
  // Case mapping
  // ---------------------------------------------------------------------------

  function LowerChar(c: char): char {
    if IsUpper(c) then (c as int + 32) as char else c
  }

  function UpperChar(c: char): char {
    if IsLower(c) then (c as int - 32) as char else c
  }

  function ToLower(s: string): (r: string)
    ensures |r| == |s|
    ensures forall i :: 0 <= i < |s| ==> (if IsUpper(s[i]) then r[i] as int == s[i] as int + 32 else r[i] == s[i])
  {
    seq(|s|, i requires 0 <= i < |s| => LowerChar(s[i]))
  }

  function ToUpper(s: string): (r: string)
    ensures |r| == |s|
    ensures forall i :: 0 <= i < |s| ==> (if IsLower(s[i]) then r[i] as int == s[i] as int - 32 else r[i] == s[i])
  {
    seq(|s|, i requires 0 <= i < |s| => UpperChar(s[i]))
  }

  lemma {:induction false} LowerUpperNoUpper(s: string)
    ensures forall i :: 0 <= i < |s| ==> !IsUpper(ToLower(s)[i]) && !IsLower(ToUpper(s)[i])
  {
  }

  // ---------------------------------------------------------------------------
  // Join and the two Split overloads
  // ---------------------------------------------------------------------------

  function Join(parts: seq<string>, delim: string): (r: string)
    ensures |parts| == 1 ==> r == parts[0]
    ensures |parts| == 0 ==> r == []
  {
    if |parts| == 0 then []
    else if |parts| == 1 then parts[0]
    else Join(parts[..|parts| - 1], delim) + delim + parts[|parts| - 1]
  }

  lemma {:induction false} JoinCons(p: string, rest: seq<string>, delim: string)
    requires |rest| > 0
    ensures Join([p] + rest, delim) == p + delim + Join(rest, delim)
    decreases |rest|
  {
    var all := [p] + rest;
    if |rest| == 1 {
      assert all[..1] == [p];
      assert Join(all, delim) == Join([p], delim) + delim + rest[0];
    } else {
      var init := rest[..|rest| - 1];
      var last := rest[|rest| - 1];
      assert all[..|all| - 1] == [p] + init;
      assert all[|all| - 1] == last;
      JoinCons(p, init, delim);
      calc {
        Join(all, delim);
        Join([p] + init, delim) + delim + last;
        (p + delim + Join(init, delim)) + delim + last;
        p + delim + (Join(init, delim) + delim + last);
        p + delim + Join(rest, delim);
      }
    }
  }

  /** `Split(str, char)`: the parts `std::getline` reads; no empty part after a final delimiter. */
  function SplitChar(s: string, d: char): (parts: seq<string>)
    ensures forall i, k :: 0 <= i < |parts| && 0 <= k < |parts[i]| ==> parts[i][k] != d
    ensures s == [] <==> parts == []
    decreases |s|
  {
    if s == [] then []
    else match FindChar(s, d, 0)
      case None => [s]
      case Some(i) => [s[..i]] + SplitChar(s[i + 1..], d)
  }

  /** Joining the getline parts gives back the input, minus one final delimiter. */
  lemma {:induction false} SplitCharJoin(s: string, d: char)
    ensures s != [] && s[|s| - 1] == d ==> Join(SplitChar(s, d), [d]) + [d] == s
    ensures s == [] || s[|s| - 1] != d ==> Join(SplitChar(s, d), [d]) == s
    decreases |s|
  {
    if s != [] {
      match FindChar(s, d, 0)
      case None =>
      case Some(i) =>
        var rest := s[i + 1..];
        assert s == s[..i] + [d] + rest;
        if rest == [] {
          assert SplitChar(s, d) == [s[..i]];
        } else {
          SplitCharJoin(rest, d);
          JoinCons(s[..i], SplitChar(rest, d), [d]);
          assert rest[|rest| - 1] == s[|s| - 1];
        }
    }
  }

  /** One iteration of the `Split(str, string)` loop: the part before the next delimiter and the next start. */
  function SplitStep(s: string, d: string, prev: nat): (r: Option<(string, nat)>)
    requires prev <= |s|
    ensures r.Some? ==> prev <= r.value.1 <= |s| && |r.value.0| + |d| == r.value.1 - prev
  {
    match Find(s, d, prev)
    case None => None
    case Some(pos) => Some((s[prev..pos], pos + |d|))
  }

  /** With an empty delimiter the loop finds a match at prevPos itself and never advances. */
  lemma {:induction false} SplitEmptyDelimiterStalls(s: string, prev: nat)
    requires prev <= |s|
    ensures SplitStep(s, [], prev) == Some(([], prev))
  {
    assert HasAt(s, prev, []);
  }

  /** `Split(str, delimiter)` for a non-empty delimiter, from index prev on. */
  function SplitFrom(s: string, d: string, prev: nat): (parts: seq<string>)
    requires |d| > 0 && prev <= |s|
    ensures |parts| >= 1
    decreases |s| - prev
  {
    match SplitStep(s, d, prev)
    case None => [s[prev..]]
    case Some((part, next)) => [part] + SplitFrom(s, d, next)
  }

  function Split(s: string, d: string): (parts: seq<string>)
    requires |d| > 0
  {
    SplitFrom(s, d, 0)
  }

  /** Number of non-overlapping leftmost occurrences of d in s from index `from` on. */
  function CountOccurrences(s: string, d: string, from: nat): nat
    requires |d| > 0 && from <= |s|
    decreases |s| - from
  {
    match Find(s, d, from)
    case None => 0
    case Some(pos) => 1 + CountOccurrences(s, d, pos + |d|)
  }

  /** A match found from prev splits the tail at prev around the delimiter. */
  lemma {:induction false} SplitStepLayout(s: string, d: string, prev: nat, part: string, next: nat)
    requires prev <= |s| && SplitStep(s, d, prev) == Some((part, next))
    ensures s[prev..] == part + d + s[next..]
  {
    var pos := Find(s, d, prev).value;
    FindSpec(s, d, prev);
    assert HasAt(s, pos, d);
    assert s[prev..] == s[prev..pos] + s[pos..pos + |d|] + s[pos + |d|..];
  }

  /** Joining the parts from prev on with the delimiter gives back the tail at prev. */
  lemma {:induction false} SplitFromJoin(s: string, d: string, prev: nat)
    requires |d| > 0 && prev <= |s|
    ensures Join(SplitFrom(s, d, prev), d) == s[prev..]
    decreases |s| - prev
  {
    match SplitStep(s, d, prev)
    case None =>
    case Some((part, next)) =>
      SplitStepLayout(s, d, prev, part, next);
      SplitFromJoin(s, d, next);
      JoinCons(part, SplitFrom(s, d, next), d);
  }

  /** Split from prev yields one part more than the occurrences counted from prev. */
  lemma {:induction false} SplitFromCount(s: string, d: string, prev: nat)
    requires |d| > 0 && prev <= |s|
    ensures |SplitFrom(s, d, prev)| == 1 + CountOccurrences(s, d, prev)
    decreases |s| - prev
  {
    match SplitStep(s, d, prev)
    case None =>
    case Some((part, next)) =>
      SplitFromCount(s, d, next);
  }

  /** For a non-empty delimiter Split and Join are inverse, with one part more than occurrences. */
  lemma {:induction false} SplitJoin(s: string, d: string)
    requires |d| > 0
    ensures Join(Split(s, d), d) == s
    ensures |Split(s, d)| == 1 + CountOccurrences(s, d, 0)
  {
    SplitFromJoin(s, d, 0);
    SplitFromCount(s, d, 0);
  }

  // ---------------------------------------------------------------------------
  // Prefix, suffix and substring tests
  // ---------------------------------------------------------------------------

  function StartsWith(s: string, prefix: string): (r: bool)
    ensures r <==> prefix <= s
  {
    if |prefix| > |s| then false else s[..|prefix|] == prefix
  }

  function EndsWith(s: string, suffix: string): (r: bool)
    ensures r <==> exists k: nat | k <= |s| :: s[k..] == suffix
  {
    if |suffix| > |s| then false
    else
      var k := |s| - |suffix|;
      if s[k..] == suffix then true
      else
        assert forall j: nat | j <= |s| :: s[j..] == suffix ==> j == k;
        false
  }

  function ContainsStr(s: string, sub: string): (r: bool)
    ensures r <==> Contains(s, sub)
  {
    FindContains(s, sub);
    Find(s, sub, 0).Some?
  }

  // ---------------------------------------------------------------------------
  // Replace and ReplaceAll
  // ---------------------------------------------------------------------------

  function Replace(s: string, from: string, to: string): (r: string)
    ensures !Contains(s, from) ==> r == s
    ensures Contains(s, from) ==> exists i: nat | i <= |s| ::
              HasAt(s, i, from) && r == s[..i] + to + s[i + |from|..]
              && (forall j :: 0 <= j < i ==> !HasAt(s, j, from))
  {
    FindContains(s, from);
    FindSpec(s, from, 0);
    match Find(s, from, 0)
    case None => s
    case Some(i) => s[..i] + to + s[i + |from|..]
  }

  /** Reference meaning of ReplaceAll: replace the leftmost occurrence, then work on what follows it in the input. */
  function ReplaceAllSpec(s: string, from: string, to: string): string
    requires |from| > 0
    decreases |s|
  {
    match Find(s, from, 0)
    case None => s
    case Some(i) => s[..i] + to + ReplaceAllSpec(s[i + |from|..], from, to)
  }

  /** Searching after a fixed prefix is searching the rest and shifting. */
  lemma {:induction false} FindAfterPrefix(p: string, r: string, pat: string, k: nat)
    ensures Find(r, pat, k).None? ==> Find(p + r, pat, |p| + k).None?
    ensures Find(r, pat, k).Some? ==> Find(p + r, pat, |p| + k) == Some(|p| + Find(r, pat, k).value)
    decreases |r| - k
  {
    var s := p + r;
    if |p| + k + |pat| <= |s| {
      assert s[|p| + k..|p| + k + |pat|] == r[k..k + |pat|];
      if r[k..k + |pat|] != pat {
        FindAfterPrefix(p, r, pat, k + 1);
      }
    }
  }

  lemma {:induction false} FindAfterPrefixSome(p: string, r: string, pat: string, i: nat)
    requires Find(r, pat, 0) == Some(i)
    ensures Find(p + r, pat, |p|) == Some(|p| + i)
  {
    FindAfterPrefix(p, r, pat, 0);
  }

  lemma {:induction false} FindAfterPrefixNone(p: string, r: string, pat: string)
    requires Find(r, pat, 0).None?
    ensures Find(p + r, pat, |p|).None?
  {
    FindAfterPrefix(p, r, pat, 0);
  }

  /**
   The `ReplaceAll` loop: search `result` from pos, splice `to` in, continue
   after the inserted text. It computes ReplaceAllSpec, so inserted text is
   never searched again.
   */
  method ReplaceAll(s: string, from: string, to: string) returns (result: string)
    requires |from| > 0
    ensures result == ReplaceAllSpec(s, from, to)
  {
    result := s;
    var pos: nat := 0;
    while true
      invariant pos <= |result|
      invariant result[..pos] + ReplaceAllSpec(result[pos..], from, to) == ReplaceAllSpec(s, from, to)
      decreases |result| - pos
    {
      var done, rest := result[..pos], result[pos..];
      assert result == done + rest;
      match Find(rest, from, 0)
      case None =>
        FindAfterPrefixNone(done, rest, from);
        assert ReplaceAllSpec(rest, from, to) == rest;
        break;
      case Some(i) =>
        FindAfterPrefixSome(done, rest, from, i);
        ReplaceAllSpecUnfold(rest, from, to, i);
        SpliceParts(done, rest, |from|, to, i, ReplaceAllSpec(rest[i + |from|..], from, to));
        result := result[..pos + i] + to + result[pos + i + |from|..];
        pos := pos + i + |to|;
    }
  }

  /** Where the pieces of one ReplaceAll splice end up, for any text x appended after the splice. */
  lemma {:induction false} SpliceParts(done: string, rest: string, m: nat, to: string, i: nat, x: string)
    requires i + m <= |rest|
    ensures var s := done + rest;
            var next := s[..|done| + i] + to + s[|done| + i + m..];
            var pos := |done| + i + |to|;
            pos <= |next| && next[..pos] == done + rest[..i] + to && next[pos..] == rest[i + m..]
            && next[..pos] + x == done + (rest[..i] + to + x)
  {
    var s := done + rest;
    assert s[..|done| + i] == done + rest[..i];
    assert s[|done| + i + m..] == rest[i + m..];
    assert (done + rest[..i] + to) + x == done + (rest[..i] + to + x);
  }

  lemma {:induction false} ReplaceAllSpecUnfold(s: string, from: string, to: string, i: nat)
    requires |from| > 0 && Find(s, from, 0) == Some(i)
    ensures ReplaceAllSpec(s, from, to) == s[..i] + to + ReplaceAllSpec(s[i + |from|..], from, to)
  {
  }

  /** With an empty `from` every search succeeds at pos and pos stays within the string: the loop never exits. */
  lemma {:induction false} ReplaceAllEmptyNeverStops(result: string, to: string, pos: nat)
    requires pos <= |result|
    ensures Find(result, [], pos) == Some(pos)
    ensures pos + |to| <= |result[..pos] + to + result[pos..]|
  {
    assert HasAt(result, pos, []);
  }

  // ---------------------------------------------------------------------------
  // URL form encoding
  // ---------------------------------------------------------------------------

  /** Bytes UrlEncode copies through unchanged. */
  predicate IsUnreserved(c: char) {
    IsAlnum(c) || c == '-' || c == '_' || c == '.' || c == '~'
  }

  function EncodeByte(c: char): (r: string)
    requires c as int < 256
  {
    if IsUnreserved(c) then [c]
    else if c == ' ' then ['+']
    else ['%'] + Hex2(c as int)
  }

  function UrlEncode(s: string): (r: string)
    requires IsByteString(s)
    ensures forall i :: 0 <= i < |r| ==> IsUnreserved(r[i]) || r[i] == '+' || r[i] == '%'
  {
    if s == [] then [] else EncodeByte(s[0]) + UrlEncode(s[1..])
  }

  /**
   `sscanf(two chars, "%x")`: leading white space, an optional sign and then at
   least one hex digit; the int read, or None when nothing converts.
   */
  function ScanHex2(a: char, b: char): Option<int> {
    if IsHexDigit(a) then
      Some(if IsHexDigit(b) then HexValue(a) * 16 + HexValue(b) else HexValue(a))
    else if (IsCSpace(a) || a == '+') && IsHexDigit(b) then Some(HexValue(b))
    else if a == '-' && IsHexDigit(b) then Some(-(HexValue(b) as int))
    else None
  }

  /** `static_cast<char>` of an int: its low byte. */
  function ByteOf(v: int): (c: char)
    ensures c as int < 256
    ensures 0 <= v < 256 ==> c as int == v
  {
    (v % 256) as char
  }

  function UrlDecode(s: string): (r: string)
    ensures |r| <= |s|
  {
    if s == [] then []
    else if s[0] == '%' && 2 < |s| then
      match ScanHex2(s[1], s[2])
      case Some(v) => [ByteOf(v)] + UrlDecode(s[3..])
      case None => ['%'] + UrlDecode(s[1..])
    else if s[0] == '+' then [' '] + UrlDecode(s[1..])
    else [s[0]] + UrlDecode(s[1..])
  }

  lemma {:induction false} DecodeEncodedByte(c: char, t: string)
    requires c as int < 256
    ensures UrlDecode(EncodeByte(c) + t) == [c] + UrlDecode(t)
  {
    var e := EncodeByte(c);
    if IsUnreserved(c) || c == ' ' {
      assert (e + t)[1..] == t;
    } else {
      var h := Hex2(c as int);
      assert e + t == ['%', h[0], h[1]] + t;
      assert (e + t)[3..] == t;
      assert ScanHex2(h[0], h[1]) == Some(c as int);
    }
  }

  /** Decoding undoes encoding for every byte string. */
  lemma {:induction false} UrlRoundTrip(s: string)
    requires IsByteString(s)
    ensures UrlDecode(UrlEncode(s)) == s
    decreases |s|
  {
    if s != [] {
      UrlRoundTrip(s[1..]);
      DecodeEncodedByte(s[0], UrlEncode(s[1..]));
      assert s == [s[0]] + s[1..];
    }
  }
}
