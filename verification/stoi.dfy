/**
 `std::stoi(str, nullptr, base)` for the bases the firmware uses (10 and 16):
 leading white space, an optional sign, for base 16 an optional "0x" or "0X",
 then the longest run of digits. No digits throws invalid_argument; a value
 outside `int` throws out_of_range.
 */
module Stoi {
  import opened Machine
  import opened Text

  /** The exception `std::stoi` throws. */
  datatype Thrown = InvalidArgument | OutOfRange

  /** A value, or the exception that ends the computation. */
  datatype Try<+T> = Ok(value: T) | Threw(e: Thrown)

  predicate IsDigitIn(c: char, base: nat)
    requires base == 10 || base == 16
  {
    if base == 10 then IsDigit(c) else IsHexDigit(c)
  }

  function DigitOf(c: char, base: nat): (d: nat)
    requires (base == 10 || base == 16) && IsDigitIn(c, base)
    ensures d < base
  {
    if IsDigit(c) then DigitValue(c) else HexValue(c)
  }

  /** The length of the run of digits at the front of s. */
  function DigitRun(s: string, base: nat): (n: nat)
    requires base == 10 || base == 16
    ensures n <= |s| && forall i | 0 <= i < n :: IsDigitIn(s[i], base)
    ensures n < |s| ==> !IsDigitIn(s[n], base)
    decreases |s|
  {
    if |s| == 0 || !IsDigitIn(s[0], base) then 0 else 1 + DigitRun(s[1..], base)
  }

  /** The value of a string of digits, most significant first. */
  function Value(digits: string, base: nat): nat
    requires base == 10 || base == 16
    requires forall i | 0 <= i < |digits| :: IsDigitIn(digits[i], base)
    decreases |digits|
  {
    if digits == [] then 0
    else Value(digits[..|digits| - 1], base) * base + DigitOf(digits[|digits| - 1], base)
  }

  /** Where the digits start: after white space, a sign and, in base 16, a "0x" that a hex digit follows. */
  function DigitsStart(s: string, base: nat): (k: nat)
    requires base == 10 || base == 16
    ensures k <= |s|
  {
    var i := SpaceRun(s);
    var j := if i < |s| && (s[i] == '-' || s[i] == '+') then i + 1 else i;
    if base == 16 && j + 2 < |s| && s[j] == '0' && (s[j + 1] == 'x' || s[j + 1] == 'X') && IsHexDigit(s[j + 2])
    then j + 2 else j
  }

  predicate Negative(s: string) {
    var i := SpaceRun(s);
    i < |s| && s[i] == '-'
  }

  function Stoi(s: string, base: nat): (r: Try<int>)
    requires base == 10 || base == 16
    ensures r.Ok? ==> -TWO31 <= r.value < TWO31
    ensures r.Ok? <==> DigitRun(s[DigitsStart(s, base)..], base) > 0 && r != Threw(OutOfRange)
  {
    var k := DigitsStart(s, base);
    var n := DigitRun(s[k..], base);
    if n == 0 then Threw(InvalidArgument)
    else
      var magnitude: int := Value(s[k..][..n], base);
      var v: int := if Negative(s) then -magnitude else magnitude;
      if v < -TWO31 || v >= TWO31 then Threw(OutOfRange) else Ok(v)
  }

  // ---------------------------------------------------------------------------
  // Writing numbers
  // ---------------------------------------------------------------------------

  const HEX_DIGITS: string := "0123456789abcdef"

  /** n in lower-case hexadecimal, without leading zeros. */
  function Hex(n: nat): (s: string)
    ensures |s| > 0 && forall i | 0 <= i < |s| :: IsHexDigit(s[i])
    ensures n > 0 ==> s[0] != '0'
    decreases n
  {
    if n < 16 then [HEX_DIGITS[n]]
    else
      var front := Hex(n / 16);
      front + [HEX_DIGITS[n % 16]]
  }

  /** Reading a written number gives it back. */
  lemma {:induction false} ValueOfHex(n: nat)
    ensures Value(Hex(n), 16) == n
    decreases n
  {
    var s := Hex(n);
    HexDigitValue(n % 16);
    if n >= 16 {
      ValueOfHex(n / 16);
      assert s[..|s| - 1] == Hex(n / 16);
    }
  }

  /** Each digit character reads as its value. */
  lemma {:induction false} HexDigitValue(d: nat)
    requires d < 16
    ensures IsHexDigit(HEX_DIGITS[d]) && DigitOf(HEX_DIGITS[d], 16) == d
  {
    if d < 10 {
      assert IsDigit(HEX_DIGITS[d]);
    } else {
      assert !IsDigit(HEX_DIGITS[d]) && 'a' <= HEX_DIGITS[d] <= 'f';
    }
  }

  /** A hex run followed by a non-digit is read whole. */
  lemma {:induction false} DigitRunOfPlaced(digits: string, rest: string, base: nat)
    requires base == 10 || base == 16
    requires forall i | 0 <= i < |digits| :: IsDigitIn(digits[i], base)
    requires rest == [] || !IsDigitIn(rest[0], base)
    ensures DigitRun(digits + rest, base) == |digits|
    decreases |digits|
  {
    if |digits| > 0 {
      assert (digits + rest)[1..] == digits[1..] + rest;
      DigitRunOfPlaced(digits[1..], rest, base);
    } else {
      assert digits + rest == rest;
    }
  }

  /** A written size reads back, alone or followed by a line end: Stoi(Hex(n), 16) is n. */
  lemma {:induction false} StoiOfHex(n: nat, rest: string)
    requires n < TWO31 && (rest == [] || rest[0] == '\r')
    ensures Stoi(Hex(n) + rest, 16) == Ok(n)
  {
    var s := Hex(n) + rest;
    var h := Hex(n);
    assert SpaceRun(s) == 0 by {
      assert s[0] == h[0] && IsHexDigit(h[0]);
    }
    assert !Negative(s);
    assert DigitsStart(s, 16) == 0 by {
      if n < 16 {
        assert |h| == 1 && (|s| == 1 || s[1] == '\r');
      } else {
        assert s[0] == h[0] != '0';
      }
    }
    assert s[0..] == s;
    DigitRunOfPlaced(h, rest, 16);
    assert s[..|h|] == h;
    ValueOfHex(n);
  }

  /** A sign is read: "-6" is minus six in any base. */
  lemma {:induction false} StoiReadsSign()
    ensures Stoi("-6", 16) == Ok(-6)
  {
    var s := "-6";
    assert SpaceRun(s) == 0 && DigitsStart(s, 16) == 1;
    assert s[1..] == "6" && DigitRun("6", 16) == 1 && "6"[..1] == "6";
  }

  /** Leading white space is skipped and reading stops at the first non-digit. */
  lemma {:induction false} StoiStopsAtNonDigit()
    ensures Stoi(" 42abc", 10) == Ok(42)
  {
    var t := " 42abc";
    assert SpaceRun(t) == 1 && DigitsStart(t, 10) == 1;
    assert t[1..] == "42abc" && DigitRun("42abc", 10) == 2 && "42abc"[..2] == "42";
    assert "42"[..1] == "4" && "4"[..0] == "";
    assert Value("4", 10) == 4;
    assert Value("42", 10) == 42;
    assert !Negative(t);
  }

  /** Without digits stoi throws. */
  lemma {:induction false} StoiWithoutDigits()
    ensures Stoi("", 10) == Threw(InvalidArgument) && Stoi("-x", 16) == Threw(InvalidArgument)
  {
    assert SpaceRun("-x") == 0 && DigitsStart("-x", 16) == 1 && "-x"[1..] == "x";
  }
}
