/**
 * Decimal text of numbers as PHP writes and reads it: `sprintf('%0Nd')`,
 * string interpolation of an integer, and the `(int)` cast of a string.
 */
module Numbers {
  import opened Strings

  predicate IsDigit(c: char) {
    '0' <= c <= '9'
  }

  function Digit(d: nat): (c: char)
    requires d < 10
    ensures IsDigit(c) && c as int - '0' as int == d
  {
    ('0' as int + d) as char
  }

  function DigitValue(c: char): (d: nat)
    requires IsDigit(c)
    ensures d < 10 && Digit(d) == c
  {
    c as int - '0' as int
  }

  function Pow10(w: nat): (p: nat)
    ensures p >= 1
  {
    if w == 0 then 1 else 10 * Pow10(w - 1)
  }

  /** `sprintf('%0{w}d', n)` for an `n` that fits in `w` digits. */
  function Padded(n: nat, w: nat): (r: string)
    requires n < Pow10(w)
    ensures |r| == w
    ensures forall i :: 0 <= i < |r| ==> IsDigit(r[i])
  {
    if w == 0 then "" else Padded(n / 10, w - 1) + [Digit(n % 10)]
  }

  /**
   * Zero padding makes the string order agree with the numeric order: the
   * reason the engine may compare dates and times as strings.
   */
  lemma {:induction false} PaddedLess(n: nat, m: nat, w: nat)
    requires n < Pow10(w) && m < Pow10(w)
    ensures Less(Padded(n, w), Padded(m, w)) <==> n < m
    decreases w
  {
    if w == 0 {
      assert n == 0 && m == 0;
    } else {
      var hn, hm := Padded(n / 10, w - 1), Padded(m / 10, w - 1);
      var dn, dm := Digit(n % 10), Digit(m % 10);
      PaddedLess(n / 10, m / 10, w - 1);
      PaddedLess(m / 10, n / 10, w - 1);
      LessConcat(hn, [dn], hm, [dm]);
      assert Less([dn], [dm]) <==> n % 10 < m % 10 by {
        assert [dn][1..] == [] && [dm][1..] == [];
      }
      assert hn == hm ==> n / 10 == m / 10 by {
        if hn == hm {
          LessIrreflexive(hn);
        }
      }
      assert n == 10 * (n / 10) + n % 10 && m == 10 * (m / 10) + m % 10;
    }
  }

  lemma PaddedInjective(n: nat, m: nat, w: nat)
    requires n < Pow10(w) && m < Pow10(w)
    requires Padded(n, w) == Padded(m, w)
    ensures n == m
  {
    LessIrreflexive(Padded(n, w));
    PaddedLess(n, m, w);
    PaddedLess(m, n, w);
  }

  /** The decimal text of `n`, as PHP interpolates an integer into a string. */
  function NatToString(n: nat): (r: string)
    ensures r != []
    ensures forall i :: 0 <= i < |r| ==> IsDigit(r[i])
    ensures |r| > 1 ==> r[0] != '0'
  {
    if n < 10 then [Digit(n)] else NatToString(n / 10) + [Digit(n % 10)]
  }

  /** The number a string of digits denotes. */
  function DigitsValue(s: string): nat
    requires forall i :: 0 <= i < |s| ==> IsDigit(s[i])
  {
    if s == [] then 0 else 10 * DigitsValue(s[..|s| - 1]) + DigitValue(s[|s| - 1])
  }

  /** The longest prefix of `s` made of digits. */
  function DigitRun(s: string): (r: string)
    ensures |r| <= |s| && r == s[..|r|]
    ensures forall i :: 0 <= i < |r| ==> IsDigit(r[i])
    ensures |r| < |s| ==> !IsDigit(s[|r|])
  {
    if s != [] && IsDigit(s[0]) then [s[0]] + DigitRun(s[1..]) else []
  }

  /** The whitespace PHP skips before a numeric string. */
  predicate IsNumericSpace(c: char) {
    c == ' ' || c == '\t' || c == '\n' || c == '\r' || c == '\U{0B}' || c == '\U{0C}'
  }

  function SkipSpace(s: string): (r: string)
    ensures |r| <= |s| && r == s[|s| - |r|..]
    ensures r == [] || !IsNumericSpace(r[0])
  {
    if s != [] && IsNumericSpace(s[0]) then SkipSpace(s[1..]) else s
  }

  /**
   * PHP's `(int)` cast of a string: leading whitespace, an optional sign and
   * the longest run of digits after it; 0 when there are no digits.
   */
  function IntCast(s: string): int
  {
    var t := SkipSpace(s);
    if t != [] && t[0] == '-' then -(DigitsValue(DigitRun(t[1..])) as int)
    else if t != [] && t[0] == '+' then DigitsValue(DigitRun(t[1..]))
    else DigitsValue(DigitRun(t))
  }

  lemma {:induction false} DigitsValueOfNatToString(n: nat)
    ensures DigitsValue(NatToString(n)) == n
  {
    var s := NatToString(n);
    if n >= 10 {
      DigitsValueOfNatToString(n / 10);
      assert s[..|s| - 1] == NatToString(n / 10);
    }
  }

  lemma {:induction false} DigitRunOfDigits(s: string)
    requires forall i :: 0 <= i < |s| ==> IsDigit(s[i])
    ensures DigitRun(s) == s
  {
    if s != [] {
      DigitRunOfDigits(s[1..]);
    }
  }

  /** Casting the decimal text of a number back to `int` gives the number. */
  lemma IntCastRoundTrip(n: nat)
    ensures IntCast(NatToString(n)) == n
  {
    var s := NatToString(n);
    assert SkipSpace(s) == s;
    DigitRunOfDigits(s);
    DigitsValueOfNatToString(n);
  }
}
