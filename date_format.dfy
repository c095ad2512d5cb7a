/**
 * The date picker's callback formats the chosen day with
 * `String.format("%d-%02d-%02d", year, month + 1, day)`, where the picker's
 * month is zero-based. The three values are Kotlin `Int`s (32 bits), so
 * `month + 1` wraps around; digits are ASCII.
 */
module DateFormat {
  import opened Strings

  type Int32 = x: int | -0x8000_0000 <= x < 0x8000_0000

  /** Two's-complement wrap-around of a 32-bit addition. */
  function WrapInt32(x: int): (r: Int32)
    ensures -0x8000_0000 <= x < 0x8000_0000 ==> r == x
    ensures (r - x) % 0x1_0000_0000 == 0
  {
    (x + 0x8000_0000) % 0x1_0000_0000 - 0x8000_0000
  }

  function DigitChar(d: int): char
    requires 0 <= d < 10
  {
    ('0' as int + d) as char
  }

  predicate IsDigit(c: char)
  {
    '0' <= c <= '9'
  }

  predicate AllDigits(s: string)
  {
    forall i :: 0 <= i < |s| ==> IsDigit(s[i])
  }

  /** The value of a string of decimal digits, most significant first. */
  function DigitsValue(s: string): nat
    requires AllDigits(s)
  {
    if |s| == 0 then 0 else DigitsValue(s[..|s| - 1]) * 10 + (s[|s| - 1] as int - '0' as int)
  }

  /** `%d` of a non-negative value: no sign, no leading zero. */
  function NatToDecimal(n: nat): string
  {
    if n < 10 then [DigitChar(n)] else NatToDecimal(n / 10) + [DigitChar(n % 10)]
  }

  /** `%d`: a minus sign before the digits of a negative value. */
  function IntToDecimal(n: int): string
  {
    if n < 0 then "-" + NatToDecimal(-n) else NatToDecimal(n)
  }

  /** `%02d`: zero-padded to width two; a negative value already has two characters. */
  function Pad2(n: int): string
  {
    if 0 <= n < 10 then "0" + NatToDecimal(n) else IntToDecimal(n)
  }

  /** The text written into the date field for the picker's (year, zero-based month, day). */
  function FormatDate(year: Int32, month: Int32, day: Int32): string
  {
    IntToDecimal(year) + "-" + Pad2(WrapInt32(month + 1)) + "-" + Pad2(day)
  }

  /** Reading the digits back gives the number: `%d` has an inverse on non-negative values. */
  lemma {:induction false} NatToDecimalRoundTrip(n: nat)
    ensures AllDigits(NatToDecimal(n))
    ensures DigitsValue(NatToDecimal(n)) == n
    ensures n >= 10 ==> NatToDecimal(n)[0] != '0'
  {
    if n >= 10 {
      var s := NatToDecimal(n / 10);
      NatToDecimalRoundTrip(n / 10);
      var t := s + [DigitChar(n % 10)];
      assert t[..|t| - 1] == s;
      assert NatToDecimal(n) == t;
    }
  }

  /** The number of characters `%d` writes for a non-negative value below 10000. */
  lemma NatToDecimalLength(n: nat)
    ensures n < 10 ==> |NatToDecimal(n)| == 1
    ensures 10 <= n < 100 ==> |NatToDecimal(n)| == 2
    ensures 100 <= n < 1000 ==> |NatToDecimal(n)| == 3
    ensures 1000 <= n < 10000 ==> |NatToDecimal(n)| == 4
  {
    if n >= 10 {
      NatToDecimalLength(n / 10);
    }
  }

  /** `%02d` of a value in 0 .. 99 is two digits that read back as the value. */
  lemma {:induction false} Pad2RoundTrip(n: int)
    requires 0 <= n < 100
    ensures |Pad2(n)| == 2 && AllDigits(Pad2(n)) && DigitsValue(Pad2(n)) == n
  {
    NatToDecimalLength(n);
    NatToDecimalRoundTrip(n);
    if n < 10 {
      var s := Pad2(n);
      assert s == ['0', DigitChar(n)];
      assert s[..1] == "0";
    }
  }

  /**
   * The shape of a picker date: the year as `%d`, then `-MM-DD`, where the two
   * two-digit fields read back as month + 1 and day.
   */
  lemma FormatDateShape(year: Int32, month: Int32, day: Int32)
    requires 0 <= month < 12 && 1 <= day <= 31
    ensures var s := FormatDate(year, month, day);
      && |s| == |IntToDecimal(year)| + 6
      && s[..|s| - 6] == IntToDecimal(year)
      && s[|s| - 6] == '-' && s[|s| - 3] == '-'
      && AllDigits(s[|s| - 5..|s| - 3]) && DigitsValue(s[|s| - 5..|s| - 3]) == month + 1
      && AllDigits(s[|s| - 2..]) && DigitsValue(s[|s| - 2..]) == day
      && (year >= 0 ==> AllDigits(s[..|s| - 6]) && DigitsValue(s[..|s| - 6]) == year)
  {
    var y, mm, dd := IntToDecimal(year), Pad2(month + 1), Pad2(day);
    Pad2RoundTrip(month + 1);
    Pad2RoundTrip(day);
    if year >= 0 {
      NatToDecimalRoundTrip(year);
    }
    var s := FormatDate(year, month, day);
    assert s == y + "-" + mm + "-" + dd;
    assert s[..|s| - 6] == y;
    assert s[|s| - 5..|s| - 3] == mm;
    assert s[|s| - 2..] == dd;
  }

  /** A date the picker yields with a four-digit year. */
  predicate FourDigitDate(year: Int32, month: Int32, day: Int32)
  {
    1000 <= year <= 9999 && 0 <= month < 12 && 1 <= day <= 31
  }

  /** Lexicographic order on equal-length digit strings is numeric order. */
  lemma {:induction false} DigitsOrder(a: string, b: string)
    requires |a| == |b| && AllDigits(a) && AllDigits(b)
    ensures LexLe(a, b) <==> DigitsValue(a) <= DigitsValue(b)
    ensures a == b <==> DigitsValue(a) == DigitsValue(b)
  {
    if |a| > 0 {
      var n := |a| - 1;
      var a', b' := a[..n], b[..n];
      assert AllDigits(a') && AllDigits(b');
      DigitsOrder(a', b');
      assert a == a' + [a[n]] && b == b' + [b[n]];
      LexLeConcat(a', [a[n]], b', [b[n]]);
    }
  }

  /** The four-digit year and the two two-digit fields of a picker date. */
  lemma FourDigitDateParts(year: Int32, month: Int32, day: Int32)
    requires FourDigitDate(year, month, day)
    ensures |NatToDecimal(year)| == 4 && AllDigits(NatToDecimal(year)) && DigitsValue(NatToDecimal(year)) == year
    ensures FormatDate(year, month, day) == NatToDecimal(year) + ("-" + (Pad2(month + 1) + ("-" + Pad2(day))))
  {
    NatToDecimalLength(year);
    NatToDecimalRoundTrip(year);
  }

  /**
   * For four-digit years, sorting the formatted strings lexicographically is
   * chronological order of (year, month, day).
   */
  lemma FourDigitDatesSortChronologically(y1: Int32, m1: Int32, d1: Int32, y2: Int32, m2: Int32, d2: Int32)
    requires FourDigitDate(y1, m1, d1) && FourDigitDate(y2, m2, d2)
    ensures LexLe(FormatDate(y1, m1, d1), FormatDate(y2, m2, d2))
            <==> y1 < y2 || (y1 == y2 && (m1 < m2 || (m1 == m2 && d1 <= d2)))
  {
    FourDigitDateParts(y1, m1, d1);
    FourDigitDateParts(y2, m2, d2);
    var Y1, Y2 := NatToDecimal(y1), NatToDecimal(y2);
    var M1, M2 := Pad2(m1 + 1), Pad2(m2 + 1);
    var D1, D2 := Pad2(d1), Pad2(d2);
    Pad2RoundTrip(m1 + 1); Pad2RoundTrip(m2 + 1);
    Pad2RoundTrip(d1); Pad2RoundTrip(d2);
    DigitsOrder(Y1, Y2);
    DigitsOrder(M1, M2);
    DigitsOrder(D1, D2);
    LexLeConcat(Y1, "-" + (M1 + ("-" + D1)), Y2, "-" + (M2 + ("-" + D2)));
    LexLeConcat("-", M1 + ("-" + D1), "-", M2 + ("-" + D2));
    LexLeConcat(M1, "-" + D1, M2, "-" + D2);
    LexLeConcat("-", D1, "-", D2);
  }

  /** Past four digits the order breaks: year 10000 sorts before year 9999. */
  lemma FiveDigitYearSortsFirst()
    ensures LexLt(FormatDate(10000, 0, 1), FormatDate(9999, 0, 1))
  {
    assert FormatDate(10000, 0, 1) == "10000-01-01";
    assert FormatDate(9999, 0, 1) == "9999-01-01";
  }
}
