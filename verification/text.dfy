/**
 Character-level helpers shared by the firmware's hand-written scanners: the C
 library calls they lean on (`strstr`, `strchr`, `strncmp`, `isdigit`, `atoi`)
 and decimal and hexadecimal rendering as `snprintf` produces it. A C string is
 modelled as the characters before its terminating NUL.
 */
module Text {
  import opened Wrappers

  predicate IsDigit(c: char) { '0' <= c <= '9' }

  predicate IsUpper(c: char) { 'A' <= c <= 'Z' }

  predicate IsLower(c: char) { 'a' <= c <= 'z' }

  predicate IsAlpha(c: char) { IsUpper(c) || IsLower(c) }

  predicate IsAlnum(c: char) { IsAlpha(c) || IsDigit(c) }

  predicate AllDigits(s: string) {
    forall i :: 0 <= i < |s| ==> IsDigit(s[i])
  }

  function DigitValue(c: char): (r: nat)
    requires IsDigit(c)
    ensures r < 10
  {
    (c as int - '0' as int)
  }

  function DigitChar(n: nat): (c: char)
    requires n < 10
    ensures IsDigit(c) && DigitValue(c) == n
  {
    ('0' as int + n) as char
  }

  /** Value of a digit string read left to right (`val = val * 10 + digit`). */
  function DecimalValue(s: string): nat
    requires AllDigits(s)
  {
    if |s| == 0 then 0 else DecimalValue(s[..|s| - 1]) * 10 + DigitValue(s[|s| - 1])
  }

  /** Length of the run of digits at the front of s. */
  function DigitRun(s: string): (n: nat)
    ensures n <= |s| && AllDigits(s[..n])
    ensures n < |s| ==> !IsDigit(s[n])
  {
    if |s| == 0 || !IsDigit(s[0]) then 0
    else
      var n := 1 + DigitRun(s[1..]);
      assert s[..n] == [s[0]] + s[1..][..n - 1];
      n
  }

  /** A run of digits followed by a non-digit is read completely. */
  lemma {:induction false} DigitRunOfDigits(t: string, rest: string)
    requires AllDigits(t) && (rest == [] || !IsDigit(rest[0]))
    ensures DigitRun(t + rest) == |t|
    decreases |t|
  {
    if |t| > 0 {
      assert (t + rest)[1..] == t[1..] + rest;
      DigitRunOfDigits(t[1..], rest);
    } else {
      assert t + rest == rest;
    }
  }

  /** `%u` / `%d` of a natural number: shortest decimal representation. */
  function NatToString(n: nat): (s: string)
    ensures |s| >= 1 && AllDigits(s)
    ensures n < 10 ==> |s| == 1
    ensures 10 <= n < 100 ==> |s| == 2
    ensures DecimalValue(s) == n
    ensures |s| > 1 ==> s[0] != '0'
  {
    if n < 10 then [DigitChar(n)]
    else
      var p := NatToString(n / 10);
      var s := p + [DigitChar(n % 10)];
      assert s[..|s| - 1] == p;
      s
  }

  /** `%d` of an int. */
  function IntToString(i: int): (s: string)
    ensures i >= 0 ==> s == NatToString(i)
    ensures i < 0 ==> s == ['-'] + NatToString(-i)
  {
    if i >= 0 then NatToString(i) else ['-'] + NatToString(-i)
  }

  /** `%02d` / `%02u` of a natural number: at least two digits, zero padded. */
  function Pad2(n: nat): (s: string)
    ensures |s| >= 2 && AllDigits(s) && DecimalValue(s) == n
    ensures n < 100 ==> |s| == 2
  {
    var t := NatToString(n);
    if |t| == 1 then
      var s := ['0'] + t;
      assert s[..1] == ['0'];
      s
    else t
  }

  /** pat occurs in s at index i (`strncmp(s + i, pat, |pat|) == 0`). */
  predicate HasAt(s: string, i: nat, pat: string) {
    i + |pat| <= |s| && s[i..i + |pat|] == pat
  }

  /** A pattern found at i starts with the character at i. */
  lemma HasAtFirst(s: string, i: nat, pat: string)
    requires HasAt(s, i, pat) && |pat| > 0
    ensures s[i] == pat[0]
  {
    assert s[i..i + |pat|][0] == s[i];
  }

  /** A pattern whose first character differs from the one at i is not found at i. */
  lemma NotHasAt(s: string, i: nat, pat: string)
    requires i < |s| && |pat| > 0 && s[i] != pat[0]
    ensures !HasAt(s, i, pat)
  {
    if HasAt(s, i, pat) {
      HasAtFirst(s, i, pat);
    }
  }

  /** Leftmost occurrence of pat in s at an index at or after `from` (`strstr`, `std::string::find`). */
  function Find(s: string, pat: string, from: nat): (r: Option<nat>)
    ensures r.Some? ==> from <= r.value && r.value + |pat| <= |s|
    decreases |s| - from
  {
    if from + |pat| > |s| then None
    else if s[from..from + |pat|] == pat then Some(from)
    else Find(s, pat, from + 1)
  }

  /** Find reports the leftmost occurrence at or after `from`, and None exactly when there is none. */
  lemma {:induction false} FindSpec(s: string, pat: string, from: nat)
    ensures var r := Find(s, pat, from);
            (r.Some? ==> from <= r.value && HasAt(s, r.value, pat))
            && (r.Some? ==> forall i :: from <= i < r.value ==> !HasAt(s, i, pat))
            && (r.None? ==> forall i :: from <= i ==> !HasAt(s, i, pat))
    decreases |s| - from
  {
    if from + |pat| <= |s| && s[from..from + |pat|] != pat {
      FindSpec(s, pat, from + 1);
    }
  }

  predicate Contains(s: string, pat: string) {
    exists i: nat | i <= |s| :: HasAt(s, i, pat)
  }

  lemma {:induction false} FindContains(s: string, pat: string)
    ensures Find(s, pat, 0).Some? <==> Contains(s, pat)
  {
    var r := Find(s, pat, 0);
    FindSpec(s, pat, 0);
    if r.Some? {
      assert HasAt(s, r.value, pat);
    }
  }

  /** A pattern s does not contain is found from no position. */
  lemma {:induction false} NotContainedNotFound(s: string, pat: string, from: nat)
    requires !Contains(s, pat)
    ensures Find(s, pat, from) == None
  {
    FindSpec(s, pat, from);
  }

  /** Find reports the index where pat occurs when it occurs nowhere between `from` and there. */
  lemma {:induction false} FindFirstAt(s: string, pat: string, from: nat, i: nat)
    requires from <= i && HasAt(s, i, pat)
    requires forall j | from <= j < i :: !HasAt(s, j, pat)
    ensures Find(s, pat, from) == Some(i)
    decreases i - from
  {
    if from < i {
      assert !HasAt(s, from, pat);
      FindFirstAt(s, pat, from + 1, i);
    }
  }

  /** Find reports no occurrence when no index at or after `from` holds one. */
  lemma {:induction false} FindAbsent(s: string, pat: string, from: nat)
    requires forall i :: from <= i ==> !HasAt(s, i, pat)
    ensures Find(s, pat, from) == None
    decreases |s| - from
  {
    if from + |pat| <= |s| {
      assert !HasAt(s, from, pat);
      FindAbsent(s, pat, from + 1);
    }
  }

  /** A pattern whose first character s lacks does not occur in s. */
  lemma {:induction false} FirstCharAbsent(s: string, pat: string)
    requires |pat| > 0 && pat[0] !in s
    ensures !Contains(s, pat)
  {
    forall i: nat | i <= |s| ensures !HasAt(s, i, pat) {
      if i + |pat| <= |s| {
        assert s[i..i + |pat|][0] == s[i] != pat[0];
      }
    }
  }

  /** Every string contains itself. */
  lemma {:induction false} ContainsSelf(s: string)
    ensures Contains(s, s)
  {
    assert HasAt(s, 0, s);
  }

  /** Leftmost occurrence of the character c at or after `from` (`strchr`, `find(char)`). */
  function FindChar(s: string, c: char, from: nat): (r: Option<nat>)
    ensures r.Some? ==> from <= r.value < |s| && s[r.value] == c
    ensures r.Some? ==> forall i :: from <= i < r.value ==> s[i] != c
    ensures r.None? ==> forall i :: from <= i < |s| ==> s[i] != c
    decreases |s| - from
  {
    if from >= |s| then None
    else if s[from] == c then Some(from)
    else FindChar(s, c, from + 1)
  }

  /** The characters of s from index i on (a pointer into a C string). */
  function Suffix(s: string, i: nat): string {
    if i <= |s| then s[i..] else []
  }

  /** The character at index i of a C string, NUL past the end. */
  function At(s: string, i: int): char {
    if 0 <= i < |s| then s[i] else 0 as char
  }

  /** The digits at the front of s read onto acc, left to right (`val = val * 10 + digit`). */
  function LeadingValue(s: string, acc: nat): nat
    decreases |s|
  {
    if |s| > 0 && IsDigit(s[0]) then LeadingValue(s[1..], acc * 10 + DigitValue(s[0])) else acc
  }

  /** C `atoi`: skips leading white space, reads an optional sign and then digits. */
  function Atoi(s: string): int
    decreases |s|
  {
    if |s| > 0 && IsCSpace(s[0]) then Atoi(s[1..])
    else if |s| > 0 && s[0] == '-' then -(LeadingValue(s[1..], 0) as int)
    else if |s| > 0 && s[0] == '+' then LeadingValue(s[1..], 0)
    else LeadingValue(s, 0)
  }

  predicate IsCSpace(c: char) {
    c == ' ' || c == '\t' || c == '\n' || c == '\r' || c == 11 as char || c == 12 as char
  }

  function SpaceRun(s: string): (n: nat)
    ensures n <= |s| && forall i :: 0 <= i < n ==> IsCSpace(s[i])
    ensures n < |s| ==> !IsCSpace(s[n])
  {
    if |s| == 0 || !IsCSpace(s[0]) then 0 else 1 + SpaceRun(s[1..])
  }

  /** A character at i with no earlier one from `from` on is what FindChar reports. */
  lemma {:induction false} FindCharAt(s: string, c: char, from: nat, i: nat)
    requires from <= i < |s| && s[i] == c
    requires forall j | from <= j < i :: s[j] != c
    ensures FindChar(s, c, from) == Some(i)
  {
  }

  /** A C string: the characters before the first NUL. */
  function CStr(s: string): (r: string)
    ensures r <= s && 0 as char !in r
    ensures |r| < |s| ==> s[|r|] == 0 as char
    ensures 0 as char !in s ==> r == s
  {
    if |s| == 0 || s[0] == 0 as char then [] else assert s == [s[0]] + s[1..]; [s[0]] + CStr(s[1..])
  }

  /** CStr keeps a text without NUL whole. */
  lemma {:induction false} CStrOfPlain(s: string)
    requires 0 as char !in s
    ensures CStr(s) == s
    decreases |s|
  {
    if |s| > 0 {
      assert s[0] in s;
      assert forall c | c in s[1..] :: c in s;
      CStrOfPlain(s[1..]);
    }
  }

  /** A C string ends at its first NUL: whatever follows it is not part of it. */
  lemma {:induction false} CStrStopsAtNul(b: string, t: string)
    ensures CStr(b + [0 as char] + t) == CStr(b)
    decreases |b|
  {
    var s := b + [0 as char] + t;
    if |b| > 0 {
      assert s[0] == b[0] && s[1..] == b[1..] + [0 as char] + t;
      CStrStopsAtNul(b[1..], t);
    }
  }

  /** s holds t at index i, character by character. */
  predicate PlacedAt(s: string, i: nat, t: string) {
    i + |t| <= |s| && forall j | 0 <= j < |t| :: s[i + j] == t[j]
  }

  /** Keep at most `size - 1` characters, as a copy into a `char[size]` buffer does. */
  function Truncate(s: string, size: nat): (r: string)
    requires size >= 1
    ensures |r| <= size - 1 && r <= s
    ensures |s| < size ==> r == s
  {
    if |s| < size then s else s[..size - 1]
  }

  predicate IsHexDigit(c: char) {
    IsDigit(c) || 'a' <= c <= 'f' || 'A' <= c <= 'F'
  }

  function HexValue(c: char): (r: nat)
    requires IsHexDigit(c)
    ensures r < 16
  {
    if IsDigit(c) then DigitValue(c)
    else if 'a' <= c <= 'f' then c as int - 'a' as int + 10
    else c as int - 'A' as int + 10
  }

  /** An upper-case hexadecimal digit. */
  function HexDigitUpper(n: nat): (c: char)
    requires n < 16
    ensures IsHexDigit(c) && HexValue(c) == n
    ensures IsDigit(c) || IsUpper(c)
  {
    if n < 10 then DigitChar(n) else ('A' as int + n - 10) as char
  }

  /** `%02X` of a byte value. */
  function Hex2(b: nat): (s: string)
    requires b < 256
    ensures |s| == 2 && IsHexDigit(s[0]) && IsHexDigit(s[1])
    ensures HexValue(s[0]) * 16 + HexValue(s[1]) == b
    ensures (IsDigit(s[0]) || IsUpper(s[0])) && (IsDigit(s[1]) || IsUpper(s[1]))
  {
    [HexDigitUpper(b / 16), HexDigitUpper(b % 16)]
  }
}
