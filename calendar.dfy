/**
 * The textual calendar the engine stores: dates as `YYYY-MM-DD` and times
 * of day as `HH:MM`, both zero padded, both compared as strings.
 */
module Calendar {
  import opened Strings
  import opened Numbers

  predicate IsLeapYear(y: int) {
    (y % 4 == 0 && y % 100 != 0) || y % 400 == 0
  }

  /** The last day of month `m` of year `y` (PHP's date format character `t`). */
  function DaysInMonth(y: int, m: int): (d: int)
    requires 1 <= m <= 12
    ensures 28 <= d <= 31
    ensures d == 29 <==> m == 2 && IsLeapYear(y)
  {
    if m == 2 then (if IsLeapYear(y) then 29 else 28)
    else if m == 4 || m == 6 || m == 9 || m == 11 then 30
    else 31
  }

  predicate IsDate(y: int, m: int, d: int) {
    1 <= y <= 9999 && 1 <= m <= 12 && 1 <= d <= DaysInMonth(y, m)
  }

  /** `sprintf('%04d-%02d-%02d', y, m, d)`. */
  function FormatDate(y: nat, m: nat, d: nat): (r: string)
    requires y < 10000 && m < 100 && d < 100
    ensures |r| == 10 && r[4] == '-' && r[7] == '-'
  {
    Padded(y, 4) + ("-" + (Padded(m, 2) + ("-" + Padded(d, 2))))
  }

  /** Comparing a string with itself behind the same separator. */
  lemma SeparatorLess(sep: string, a: string, b: string)
    ensures Less(sep + a, sep + b) <==> Less(a, b)
    ensures sep + a == sep + b <==> a == b
  {
    LessIrreflexive(sep);
    LessConcat(sep, a, sep, b);
    if sep + a == sep + b {
      assert a == (sep + a)[|sep|..] && b == (sep + b)[|sep|..];
    }
  }

  /** Two `PP` + rest strings compare on the number first, the rest on a tie. */
  lemma PaddedPrefixLess(n1: nat, n2: nat, w: nat, a: string, b: string)
    requires n1 < Pow10(w) && n2 < Pow10(w)
    ensures Less(Padded(n1, w) + a, Padded(n2, w) + b) <==> n1 < n2 || (n1 == n2 && Less(a, b))
    ensures Padded(n1, w) + a == Padded(n2, w) + b <==> n1 == n2 && a == b
  {
    LessConcat(Padded(n1, w), a, Padded(n2, w), b);
    PaddedLess(n1, n2, w);
    if Padded(n1, w) == Padded(n2, w) {
      PaddedInjective(n1, n2, w);
    }
    if Padded(n1, w) + a == Padded(n2, w) + b {
      assert Padded(n1, w) == (Padded(n1, w) + a)[..w];
      assert Padded(n2, w) == (Padded(n2, w) + b)[..w];
      assert a == (Padded(n1, w) + a)[w..] && b == (Padded(n2, w) + b)[w..];
    }
  }

  /** The chronological order of two dates, day by day. */
  predicate DateBefore(y1: int, m1: int, d1: int, y2: int, m2: int, d2: int) {
    y1 < y2 || (y1 == y2 && (m1 < m2 || (m1 == m2 && d1 < d2)))
  }

  /** String order on formatted dates is the chronological order. */
  lemma FormatDateOrder(y1: nat, m1: nat, d1: nat, y2: nat, m2: nat, d2: nat)
    requires y1 < 10000 && m1 < 100 && d1 < 100
    requires y2 < 10000 && m2 < 100 && d2 < 100
    ensures Less(FormatDate(y1, m1, d1), FormatDate(y2, m2, d2)) <==> DateBefore(y1, m1, d1, y2, m2, d2)
    ensures FormatDate(y1, m1, d1) == FormatDate(y2, m2, d2) <==> y1 == y2 && m1 == m2 && d1 == d2
  {
    var day1, day2 := "-" + Padded(d1, 2), "-" + Padded(d2, 2);
    SeparatorLess("-", Padded(d1, 2), Padded(d2, 2));
    PaddedPrefixLess(d1, d2, 2, [], []);
    assert Padded(d1, 2) + [] == Padded(d1, 2) && Padded(d2, 2) + [] == Padded(d2, 2);
    PaddedPrefixLess(m1, m2, 2, day1, day2);
    var md1, md2 := Padded(m1, 2) + day1, Padded(m2, 2) + day2;
    SeparatorLess("-", md1, md2);
    PaddedPrefixLess(y1, y2, 4, "-" + md1, "-" + md2);
  }

  /**
   * `getByMonth` asks for the dates BETWEEN the first and the last day of
   * the month; on well-formed dates that is exactly the dates of that month.
   */
  lemma MonthRangeIsMonth(y: int, m: int, y2: int, m2: int, d2: int)
    requires IsDate(y, m, 1) && IsDate(y2, m2, d2)
    ensures LessEq(FormatDate(y, m, 1), FormatDate(y2, m2, d2))
            && LessEq(FormatDate(y2, m2, d2), FormatDate(y, m, DaysInMonth(y, m)))
            <==> y2 == y && m2 == m
  {
    FormatDateOrder(y, m, 1, y2, m2, d2);
    FormatDateOrder(y2, m2, d2, y, m, DaysInMonth(y, m));
  }

  /** `sprintf('%02d:%02d', h, mi)`. */
  function FormatTime(h: nat, mi: nat): (r: string)
    requires h < 100 && mi < 100
    ensures |r| == 5 && r[2] == ':'
  {
    Padded(h, 2) + (":" + Padded(mi, 2))
  }

  /** String order on formatted times of day is the order of minutes since midnight. */
  lemma FormatTimeOrder(h1: nat, mi1: nat, h2: nat, mi2: nat)
    requires h1 < 100 && h2 < 100 && mi1 < 60 && mi2 < 60
    ensures Less(FormatTime(h1, mi1), FormatTime(h2, mi2)) <==> 60 * h1 + mi1 < 60 * h2 + mi2
  {
    SeparatorLess(":", Padded(mi1, 2), Padded(mi2, 2));
    PaddedLess(mi1, mi2, 2);
    PaddedPrefixLess(h1, h2, 2, ":" + Padded(mi1, 2), ":" + Padded(mi2, 2));
  }
}
