/**
 The `sscanf` conversions the ICS parser uses on dates: `%Nd` reads an optional
 sign and digits, at most N characters, after skipping white space; a literal
 character in the format must match the next input character exactly.
 */
module Scan {
  import opened Wrappers
  import opened Text

  /** The first position at or after p that is not C white space. */
  function SkipSpace(s: string, p: nat): (r: nat)
    requires p <= |s|
    ensures p <= r <= |s| && !IsCSpace(At(s, r))
    decreases |s| - p
  {
    if p < |s| && IsCSpace(s[p]) then SkipSpace(s, p + 1) else p
  }

  /**
   At most `left` decimal digits from position q, accumulated left to right onto
   `acc` (`acc * 10 + digit`); the position after the last digit read.
   */
  function ReadDigits(s: string, q: nat, left: nat, acc: int): (r: (int, nat))
    requires q <= |s|
    ensures q <= r.1 <= |s| && r.1 <= q + left
    decreases left
  {
    if left == 0 || !IsDigit(At(s, q)) then (acc, q)
    else ReadDigits(s, q + 1, left - 1, acc * 10 + DigitValue(s[q]))
  }

  /**
   One `%Nd` conversion: white space is skipped, then a sign and digits are read,
   at most `width` characters in all; it fails unless at least one digit is read.
   */
  function ScanInt(s: string, p: nat, width: nat): (r: Option<(int, nat)>)
    requires p <= |s| && width >= 1
    ensures r.Some? ==> p < r.value.1 <= |s|
  {
    var w := SkipSpace(s, p);
    var signed := At(s, w) == '-' || At(s, w) == '+';
    var q := if signed then w + 1 else w;
    var (v, e) := ReadDigits(s, q, if signed then width - 1 else width, 0);
    if e == q then None
    else Some((if At(s, w) == '-' then -v else v, e))
  }

  /**
   `%Nd%2d%2d`: three numbers, the first at most N characters wide, and the
   position after the third.
   */
  function ScanThree(s: string, p: nat, width: nat): (r: Option<(int, int, int, nat)>)
    requires p <= |s| && width >= 1
    ensures r.Some? ==> p < r.value.3 <= |s|
  {
    var a := ScanInt(s, p, width);
    if a.None? then None
    else
      var bc := ScanPair(s, a.value.1);
      if bc.None? then None
      else Some((a.value.0, bc.value.0, bc.value.1, bc.value.2))
  }

  /** `%2d%2d`: two numbers and the position after the second. */
  function ScanPair(s: string, p: nat): (r: Option<(int, int, nat)>)
    requires p <= |s|
    ensures r.Some? ==> p < r.value.2 <= |s|
  {
    var b := ScanInt(s, p, 2);
    if b.None? then None
    else
      var c := ScanInt(s, b.value.1, 2);
      if c.None? then None
      else Some((b.value.0, c.value.0, c.value.1))
  }

  /** `%4d%2d%2d`: year, month and day; all three must succeed. */
  function ScanDate(s: string, p: nat): (r: Option<(int, int, int)>)
    requires p <= |s|
  {
    var f := ScanThree(s, p, 4);
    if f.None? then None else Some((f.value.0, f.value.1, f.value.2))
  }

  /** `%4d%2d%2dT%2d%2d%2d`: a date, the letter T, then hours, minutes and seconds. */
  function ScanDateTime(s: string, p: nat): (r: Option<(int, int, int, int, int, int)>)
    requires p <= |s|
  {
    var d := ScanThree(s, p, 4);
    if d.None? || At(s, d.value.3) != 'T' then None
    else
      var t := ScanThree(s, d.value.3 + 1, 2);
      if t.None? then None
      else Some((d.value.0, d.value.1, d.value.2, t.value.0, t.value.1, t.value.2))
  }

  /** The value of the n characters at p read as decimal digits. */
  function FieldValue(s: string, p: nat, n: nat): int
    requires p <= |s|
  {
    ReadDigits(s, p, n, 0).0
  }

  /** Three fields made only of digits, each as wide as its conversion, scan as their values. */
  lemma {:induction false} ScanThreeDigits(s: string, p: nat, width: nat)
    requires width >= 1 && p + width + 4 <= |s|
    requires forall k | p <= k < p + width + 4 :: IsDigit(s[k])
    ensures ScanThree(s, p, width) == Some((FieldValue(s, p, width),
      FieldValue(s, p + width, 2), FieldValue(s, p + width + 2, 2), p + width + 4))
  {
    ScanDigits(s, p, width);
    ScanPairDigits(s, p + width);
  }

  /** Two two-digit fields scan as their values. */
  lemma {:induction false} ScanPairDigits(s: string, p: nat)
    requires p + 4 <= |s| && forall k | p <= k < p + 4 :: IsDigit(s[k])
    ensures ScanPair(s, p) == Some((FieldValue(s, p, 2), FieldValue(s, p + 2, 2), p + 4))
  {
    ScanDigits(s, p, 2);
    ScanDigits(s, p + 2, 2);
  }

  /** A YYYYMMDD date scans as its three fields, whatever follows the day. */
  lemma {:induction false} ScanDateDigits(s: string, p: nat)
    requires p + 8 <= |s| && forall k | p <= k < p + 8 :: IsDigit(s[k])
    ensures ScanDate(s, p) == Some((FieldValue(s, p, 4), FieldValue(s, p + 4, 2), FieldValue(s, p + 6, 2)))
  {
    ScanThreeDigits(s, p, 4);
  }

  /** A YYYYMMDDTHHMMSS stamp scans as its six fields, whatever follows the seconds. */
  lemma {:induction false} ScanDateTimeDigits(s: string, p: nat)
    requires p + 15 <= |s| && s[p + 8] == 'T'
    requires forall k | p <= k < p + 15 && k != p + 8 :: IsDigit(s[k])
    ensures ScanDateTime(s, p) == Some((
      FieldValue(s, p, 4), FieldValue(s, p + 4, 2), FieldValue(s, p + 6, 2),
      FieldValue(s, p + 9, 2), FieldValue(s, p + 11, 2), FieldValue(s, p + 13, 2)))
  {
    ScanThreeDigits(s, p, 4);
    ScanThreeDigits(s, p + 9, 2);
  }

  /** A field of n digits has the decimal value of those digits. */
  lemma {:induction false} FieldValueIsDecimal(s: string, p: nat, n: nat)
    requires p + n <= |s| && forall k | p <= k < p + n :: IsDigit(s[k])
    ensures FieldValue(s, p, n) == DecimalValue(s[p..p + n])
  {
    assert s[p..p] == [];
    ReadDigitsValue(s, p, 0, n);
  }

  /** Reading k digits from q continues the left-to-right decimal value. */
  lemma {:induction false} ReadDigitsValue(s: string, q: nat, i: nat, k: nat)
    requires i <= k && q + k <= |s|
    requires forall j | q <= j < q + k :: IsDigit(s[j])
    ensures ReadDigits(s, q + i, k - i, DecimalValue(s[q..q + i])) == (DecimalValue(s[q..q + k]), q + k)
    decreases k - i
  {
    if i < k {
      assert s[q..q + i + 1][..i] == s[q..q + i];
      ReadDigitsValue(s, q, i + 1, k);
    }
  }

  /** A `%Nd` conversion at N digits reads exactly those N digits. */
  lemma {:induction false} ScanDigits(s: string, p: nat, width: nat)
    requires width >= 1 && p + width <= |s|
    requires forall k | p <= k < p + width :: IsDigit(s[k])
    ensures ScanInt(s, p, width) == Some((FieldValue(s, p, width), p + width))
  {
    assert SkipSpace(s, p) == p;
    assert s[p..p] == [];
    ReadDigitsValue(s, p, 0, width);
  }
}
