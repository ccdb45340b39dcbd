/** The integer text conversions the parser depends on: JavaScript's
    `parseInt(s, 10)` and, as its inverse, the decimal rendering of an integer. */
module Numbers {
  import opened Wrappers
  import opened Text

  predicate IsDigit(c: char) {
    '0' <= c <= '9'
  }

  predicate AllDigits(s: string) {
    forall i :: 0 <= i < |s| ==> IsDigit(s[i])
  }

  function DigitValue(c: char): (d: nat)
    requires IsDigit(c)
    ensures d < 10
  {
    c as int - '0' as int
  }

  function DigitChar(d: nat): (c: char)
    requires d < 10
    ensures IsDigit(c) && DigitValue(c) == d
  {
    ('0' as int + d) as char
  }

  /** The longest prefix of `s` made of ASCII digits. */
  function DigitPrefix(s: string): (d: string)
    ensures d <= s && AllDigits(d)
    ensures |d| == |s| || !IsDigit(s[|d|])
  {
    if s != [] && IsDigit(s[0]) then [s[0]] + DigitPrefix(s[1..]) else []
  }

  /** The value of a string of decimal digits, most significant digit first. */
  function DigitsValue(d: string): nat
    requires AllDigits(d)
  {
    if d == [] then 0 else 10 * DigitsValue(d[..|d| - 1]) + DigitValue(d[|d| - 1])
  }

  /** `parseInt(s, 10)`: leading white space is skipped, then an optional sign, then
      the longest run of decimal digits gives the value; `None` stands for `NaN`,
      the result when that run is empty. Whatever follows the digits is ignored. */
  function ParseInt(s: string): Option<int> {
    var t := TrimStart(s);
    if t != [] && t[0] == '-' then Negated(ParseUnsigned(t[1..]))
    else if t != [] && t[0] == '+' then ParseUnsigned(t[1..])
    else ParseUnsigned(t)
  }

  /** The value of the digits at the start of `u`, or `None` when there are none. */
  function ParseUnsigned(u: string): (r: Option<int>)
    ensures r.Some? ==> r.value >= 0
  {
    var digits := DigitPrefix(u);
    if digits == [] then None else Some(DigitsValue(digits))
  }

  function Negated(r: Option<int>): Option<int> {
    if r.Some? then Some(-r.value) else None
  }

  /** The decimal digits of `n`, without leading zeros. */
  function {:induction false} NatToDecimal(n: nat): (s: string)
    ensures |s| >= 1 && AllDigits(s)
    ensures |s| > 1 ==> s[0] != '0'
  {
    if n < 10 then [DigitChar(n)] else NatToDecimal(n / 10) + [DigitChar(n % 10)]
  }

  /** `String(i)` for an integer `i`. */
  function IntToDecimal(i: int): string {
    if i < 0 then "-" + NatToDecimal(-i) else NatToDecimal(i)
  }

  /** A decimal rendering holds digits and at most a minus sign. */
  lemma DecimalChars(i: int)
    ensures forall k :: 0 <= k < |IntToDecimal(i)| ==> IntToDecimal(i)[k] == '-' || IsDigit(IntToDecimal(i)[k])
  {
  }

  lemma {:induction false} DecimalValue(n: nat)
    ensures DigitsValue(NatToDecimal(n)) == n
  {
    if n >= 10 {
      var s := NatToDecimal(n);
      DecimalValue(n / 10);
      assert s[..|s| - 1] == NatToDecimal(n / 10);
    }
  }

  lemma {:induction false} DigitPrefixOfDigits(d: string, tail: string)
    requires AllDigits(d)
    requires tail == [] || !IsDigit(tail[0])
    ensures DigitPrefix(d + tail) == d
  {
    if d == [] {
      assert d + tail == tail;
    } else {
      assert (d + tail)[1..] == d[1..] + tail;
      DigitPrefixOfDigits(d[1..], tail);
      assert [d[0]] + d[1..] == d;
    }
  }

  /** `parseInt` reads back the decimal rendering of any integer, whatever non-digit
      text follows it (so `parseInt("3x", 10)` is 3). */
  lemma ParseIntOfDecimal(i: int, tail: string)
    requires tail == [] || !IsDigit(tail[0])
    ensures ParseInt(IntToDecimal(i) + tail) == Some(i)
  {
    if i < 0 {
      ParseIntOfNegative(-i, tail);
    } else {
      ParseIntOfNatural(i, tail);
    }
  }

  lemma ParseIntOfNatural(n: nat, tail: string)
    requires tail == [] || !IsDigit(tail[0])
    ensures ParseInt(IntToDecimal(n) + tail) == Some(n)
  {
    ParseIntOfDigits(NatToDecimal(n), tail);
    DecimalValue(n);
  }

  lemma ParseIntOfDigits(d: string, tail: string)
    requires |d| >= 1 && AllDigits(d)
    requires tail == [] || !IsDigit(tail[0])
    ensures ParseInt(d + tail) == Some(DigitsValue(d))
  {
    var s := d + tail;
    assert s[0] == d[0];
    TrimStartWithoutSpace(s);
    DigitPrefixOfDigits(d, tail);
  }

  lemma ParseIntOfNegative(n: nat, tail: string)
    requires n > 0
    requires tail == [] || !IsDigit(tail[0])
    ensures ParseInt(IntToDecimal(-(n as int)) + tail) == Some(-(n as int))
  {
    var d := NatToDecimal(n);
    assert IntToDecimal(-(n as int)) == "-" + d;
    assert IntToDecimal(-(n as int)) + tail == ['-'] + (d + tail);
    ParseIntOfMinus(d + tail);
    UnsignedOfDigits(d, tail);
    DecimalValue(n);
  }

  /** A leading minus sign negates what follows it. */
  lemma ParseIntOfMinus(u: string)
    ensures ParseInt(['-'] + u) == Negated(ParseUnsigned(u))
  {
    var s := ['-'] + u;
    TrimStartWithoutSpace(s);
    assert s[1..] == u;
  }

  /** Digits followed by a non-digit are read as their value. */
  lemma UnsignedOfDigits(d: string, tail: string)
    requires |d| >= 1 && AllDigits(d)
    requires tail == [] || !IsDigit(tail[0])
    ensures ParseUnsigned(d + tail) == Some(DigitsValue(d))
  {
    DigitPrefixOfDigits(d, tail);
  }

  /** A string in which no digit occurs is `NaN` to `parseInt`. */
  lemma ParseIntWithoutDigits(s: string)
    requires forall k :: 0 <= k < |s| ==> !IsDigit(s[k])
    ensures ParseInt(s) == None
  {
    var t := TrimStart(s);
    if t != [] {
      assert t[0] == s[|s| - |t|];
      if |t| > 1 {
        assert t[1..][0] == s[|s| - |t| + 1];
      }
    }
  }
}
