/** The few JavaScript string conversions the components rely on:
    `Number.prototype.toString()` of an integer, `padStart(2, '0')`, and
    `Number(s)` of a string of decimal digits. */
module JsText {
  predicate IsDigit(c: char)
  {
    '0' <= c <= '9'
  }

  predicate AllDigits(s: string)
  {
    forall i :: 0 <= i < |s| ==> IsDigit(s[i])
  }

  function DigitChar(d: nat): (c: char)
    requires d < 10
    ensures IsDigit(c) && c as int - '0' as int == d
  {
    ('0' as int + d) as char
  }

  /** The value of a string of decimal digits; the empty string is 0, as
      `Number("")` is. */
  function DigitsValue(s: string): nat
    requires AllDigits(s)
  {
    if |s| == 0 then 0 else DigitsValue(s[..|s| - 1]) * 10 + (s[|s| - 1] as int - '0' as int)
  }

  /** Decimal rendering of a non-negative integer, without leading zeros. */
  function NatToString(n: nat): (s: string)
    ensures AllDigits(s) && |s| >= 1
    ensures n < 10 <==> |s| == 1
    ensures |s| == 2 <==> 10 <= n < 100
    ensures s[0] == '0' ==> n == 0
  {
    if n < 10 then [DigitChar(n)] else NatToString(n / 10) + [DigitChar(n % 10)]
  }

  /** `x.toString()` for an integer `x`: a minus sign before a negative one. */
  function IntToString(x: int): (s: string)
    ensures x >= 0 ==> AllDigits(s)
    ensures x < 0 ==> |s| >= 2 && s[0] == '-' && AllDigits(s[1..])
  {
    if x < 0 then "-" + NatToString(-x) else NatToString(x)
  }

  /** `s.padStart(2, '0')`: zeros in front until the string has length 2. */
  function PadStart2(s: string): (r: string)
    ensures |r| == if |s| < 2 then 2 else |s|
    ensures r[|r| - |s|..] == s
    ensures forall i :: 0 <= i < |r| - |s| ==> r[i] == '0'
  {
    if |s| >= 2 then s else if |s| == 1 then "0" + s else "00"
  }

  /** Reading back a rendered number gives the number. */
  lemma {:induction false} NatToStringRoundTrip(n: nat)
    ensures DigitsValue(NatToString(n)) == n
  {
    if n >= 10 {
      var s := NatToString(n);
      NatToStringRoundTrip(n / 10);
      assert s[..|s| - 1] == NatToString(n / 10);
    }
  }

  /** Leading zeros do not change the value of a digit string. */
  lemma {:induction false} LeadingZeroValue(s: string)
    requires AllDigits(s)
    ensures AllDigits("0" + s) && DigitsValue("0" + s) == DigitsValue(s)
  {
    var z := "0" + s;
    assert AllDigits(z) by {
      forall i | 0 <= i < |z| ensures IsDigit(z[i]) {
        if i > 0 { assert z[i] == s[i - 1]; }
      }
    }
    if |s| > 0 {
      LeadingZeroValue(s[..|s| - 1]);
      assert z[..|z| - 1] == "0" + s[..|s| - 1];
    }
  }

  /** Padding a rendered number never changes what it reads back as, and
      a number below 100 comes out as exactly two digits. */
  lemma PaddedValue(n: nat)
    ensures var p := PadStart2(NatToString(n));
      AllDigits(p) && DigitsValue(p) == n && (n < 100 <==> |p| == 2)
  {
    var s := NatToString(n);
    NatToStringRoundTrip(n);
    if |s| == 1 {
      LeadingZeroValue(s);
    }
  }

  /** `a % b` in JavaScript, for `b > 0`: `a` minus a multiple of `b`,
      taking the sign of `a` and smaller than `b` in size, so it agrees with
      the Euclidean remainder only for `a >= 0`. */
  function JsRem(a: int, b: int): (r: int)
    requires b > 0
    ensures (a - r) % b == 0
    ensures a >= 0 ==> 0 <= r < b
    ensures a < 0 ==> -b < r <= 0
  {
    if a >= 0 then
      var q := a / b;
      assert a - a % b == b * q;
      MultipleHasNoRemainder(b, q);
      a % b
    else
      var q := (-a) / b;
      assert a + (-a) % b == b * -q;
      MultipleHasNoRemainder(b, -q);
      -((-a) % b)
  }

  /** A multiple of `b` leaves no remainder. */
  lemma MultipleHasNoRemainder(b: int, q: int)
    requires b > 0
    ensures (b * q) % b == 0
  {
    var x := b * q;
    var k := q - x / b;
    assert b * k == x % b < b;
    assert k == 0;
  }

  /** `s.indexOf(c)`, except that a missing character gives `|s|`. */
  function IndexOf(s: string, c: char): (i: nat)
    ensures i <= |s|
    ensures i < |s| ==> s[i] == c
    ensures forall k :: 0 <= k < i ==> s[k] != c
  {
    if |s| == 0 || s[0] == c then 0 else IndexOf(s[1..], c) + 1
  }
}
